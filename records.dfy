/** The record shapes that the Google Scholar pipeline writes to its JSON
    lines logs, and the Python exceptions that its operations may raise. */
module Records {
  import opened Wrappers

  /** The exceptions the core raises: `ValueError` from unpacking or from
      building a dict of pairs, `KeyError` from a missing dict key,
      `IndexError` from indexing an empty list. */
  datatype Error = ValueError | KeyError(key: string) | IndexError

  /** A co-author name as it may be found in a stored profile: normally a
      string, but older logs hold it as a list of strings. */
  datatype Name = Text(text: string) | Texts(texts: seq<string>)

  /** `GsProfileEntry`: a displayed name with a link to a profile. */
  datatype ProfileEntry = ProfileEntry(name: Name, url: string)

  /** `Citation`: the fields of an EndNote export. A field whose tag never
      appeared is absent (`None`); `kind` is the Python key `type`. */
  datatype Citation = Citation(
    kind: Option<string>,
    title: Option<string>,
    authors: seq<string>,
    journal: Option<string>,
    volume: Option<string>,
    number: Option<string>,
    pages: Option<string>,
    year: Option<string>,
    publisher: Option<string>)

  /** `GsProfileItem`: one line of `gs_profiles.jsonl`. */
  datatype ProfileItem = ProfileItem(
    name: string,
    url: string,
    homepage: string,
    brief: string,
    citedStats: string,
    coAuthors: seq<ProfileEntry>,
    articles: seq<string>,
    tags: seq<string>,
    pdfPath: string,
    htmlPath: string)

  /** `GsSearchItem`: one line of `gs_result.jsonl`. */
  datatype SearchItem = SearchItem(url: string, citation: Citation, profiles: seq<ProfileEntry>)
}
