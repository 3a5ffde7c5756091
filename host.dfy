/**
 * The values the extension borrows from the editor that hosts it. The host's
 * library routines are passed in as parameters rather than modelled.
 */
module Host {
  /** A document as the editor holds it: its file's full path and its text split into lines. */
  datatype Document = Document(fullPath: string, lines: seq<string>)

  /** A file-system entry of the project tree; a directory is an entry whose contents can be listed. */
  datatype Entry = File(fullPath: string) | Directory(fullPath: string, contents: seq<Entry>)

  /**
   * Library routines of the host:
   * - `matches(line, pattern)`: whether `line.match(pattern)` finds something;
   * - `baseName(path)`: `FileUtils.getBaseName`;
   * - `compareFilenames(a, b)`: `FileUtils.compareFilenames`, zero when the names are equal.
   */
  datatype Services = Services(
    matches: (string, string) -> bool,
    baseName: string -> string,
    compareFilenames: (string, string) -> int)
}
