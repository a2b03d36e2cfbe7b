/**
 The paper catalogue's values. A Medline field and a stored paper field can
 be either a single string or a list of strings: the placeholder `'?'` for a
 missing field is a string, a parsed author or keyword field is a list.
 */
module Records {

  datatype Option<T> = None | Some(value: T) {
    /** `dict.get(key, default)` on a field that may be missing. */
    function GetOr(default: T): T {
      match this
      case Some(v) => v
      case None => default
    }
  }

  /** A JSON-style value that is either a string or a list of strings. */
  datatype Field = Str(text: string) | StrList(items: seq<string>)

  /** One entry of `papers`: its `Title`, `Authors` and `Keywords`. */
  datatype Paper = Paper(title: string, authors: Field, keywords: Field)

  /** The stand-in for every missing Medline field, identifier included. */
  const Placeholder: string := "?"
}
