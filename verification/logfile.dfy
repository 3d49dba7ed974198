/**
 The measurement log (`create_file_if_not_existing` and `write_to_file` in
 src/main.rs).

 The file system is a map from path to the file's lines. Opening a file with
 `create_new` succeeds exactly when the path is absent; opening it for append
 afterwards always finds it. Write failures, which the program discards, are
 not modelled: every write lands.
 */
module LogFile {

  type Path = string
  type Line = string
  type FileSystem = map<Path, seq<Line>>

  /** The column header a new log starts with. The data rows carry a
      timestamp column in front that the header does not name. */
  const Header: Line := "dal,normaal,terug dal,terug normaal,gas"

  /** No file other than `path` differs between `fs` and `fs'`. */
  predicate OnlyTouches(fs: FileSystem, fs': FileSystem, path: Path)
  {
    && fs'.Keys == fs.Keys + {path}
    && forall p | p in fs && p != path :: fs'[p] == fs[p]
  }

  /** The header step: create the file with its header line when it does
      not exist, and leave an existing file alone, even an empty one. */
  function CreateIfAbsent(fs: FileSystem, path: Path): (fs': FileSystem)
    ensures OnlyTouches(fs, fs', path)
    ensures path in fs ==> fs' == fs
    ensures path !in fs ==> fs'[path] == [Header]
  {
    if path in fs then fs else fs[path := [Header]]
  }

  /** Running the header step twice is running it once. */
  lemma CreateIdempotent(fs: FileSystem, path: Path)
    ensures CreateIfAbsent(CreateIfAbsent(fs, path), path) == CreateIfAbsent(fs, path)
  {
  }

  /** One write: the header step, then one row appended. The earlier lines
      stay as they were, in front of the new row. */
  function WriteToFile(fs: FileSystem, path: Path, row: Line): (fs': FileSystem)
    ensures OnlyTouches(fs, fs', path)
    ensures path in fs ==> fs'[path] == fs[path] + [row]
    ensures path !in fs ==> fs'[path] == [Header, row]
  {
    var created := CreateIfAbsent(fs, path);
    created[path := created[path] + [row]]
  }

  /** Successive writes of `rows` to one path, in order. */
  function WriteRows(fs: FileSystem, path: Path, rows: seq<Line>): FileSystem
    decreases |rows|
  {
    if |rows| == 0 then fs
    else WriteRows(WriteToFile(fs, path, rows[0]), path, rows[1..])
  }

  /** N writes append exactly the N rows, in order, behind what the file
      held before (or behind a single header line if it did not exist), and
      leave every other file alone. */
  lemma {:induction false} WriteRowsAppends(fs: FileSystem, path: Path, rows: seq<Line>)
    requires |rows| > 0
    ensures var fs' := WriteRows(fs, path, rows);
      && OnlyTouches(fs, fs', path)
      && (path in fs ==> fs'[path] == fs[path] + rows)
      && (path !in fs ==> fs'[path] == [Header] + rows)
    decreases |rows|
  {
    var fs1 := WriteToFile(fs, path, rows[0]);
    if |rows| > 1 {
      WriteRowsAppends(fs1, path, rows[1..]);
      assert [rows[0]] + rows[1..] == rows;
    } else {
      assert rows == [rows[0]];
    }
  }

  /** The log is append-only: whatever a file held before any number of
      writes is still its beginning afterwards. */
  lemma KeepsEarlierLines(fs: FileSystem, path: Path, rows: seq<Line>)
    requires path in fs
    ensures path in WriteRows(fs, path, rows)
    ensures fs[path] <= WriteRows(fs, path, rows)[path]
  {
    if |rows| > 0 {
      WriteRowsAppends(fs, path, rows);
    }
  }

  /** Writing to a fresh path leaves the header as the first line, exactly
      once in front of the rows. */
  lemma HeaderOnceOnFreshPath(fs: FileSystem, path: Path, rows: seq<Line>)
    requires path !in fs && |rows| > 0
    ensures path in WriteRows(fs, path, rows)
    ensures var log := WriteRows(fs, path, rows)[path];
      && |log| == |rows| + 1
      && log[0] == Header
      && log[1..] == rows
  {
    WriteRowsAppends(fs, path, rows);
  }
}
