/** core/io.py (and the copy in core/ingest.py): the delimiter inferred from the
    file name, and the choice between a fixed separator and sniffing. The CSV
    parser itself is a parameter. */
module Io {
  import opened Strings
  import opened Wrappers
  import opened Frame

  newtype byte = x: int | 0 <= x < 256

  /** The `sep` argument handed to read_csv: a fixed character, or None with
      the python engine (sniffing). */
  datatype Sep = Fixed(c: char) | Sniff

  /** What read_csv does with the bytes: a table, EmptyDataError, or some
      other parser error. */
  datatype ParseOutcome = Parsed(table: Table) | EmptyData | Malformed

  /** Position of the last occurrence of `c`, or -1. */
  function LastIndex(s: string, c: char): (k: int)
    ensures -1 <= k < |s|
    ensures k >= 0 ==> s[k] == c
    ensures forall j :: k < j < |s| ==> s[j] != c
  {
    if s == [] then -1
    else if s[|s| - 1] == c then |s| - 1
    else LastIndex(s[..|s| - 1], c)
  }

  /** PurePosixPath(path).name: the last component, where empty components and
      "." components do not count. */
  function Name(path: string): (name: string)
    ensures '/' !in name
    decreases |path|
  {
    var k := LastIndex(path, '/');
    var last := path[k + 1..];
    if last == "" || last == "." then
      if k < 0 then "" else Name(path[..k])
    else last
  }

  /** PurePath.suffix: from the last dot of the name, unless that dot is the
      first or the last character. */
  function Suffix(name: string): (suffix: string)
    ensures suffix == "" || (suffix[0] == '.' && |suffix| >= 2 && '.' !in suffix[1..])
    ensures suffix != "" ==> exists k :: 0 < k < |name| && name[k..] == suffix
  {
    var i := LastIndex(name, '.');
    if 0 < i < |name| - 1 then name[i..]
    else ""
  }

  /** detect_delimiter / _detect_delimiter: a fixed separator, tab or comma,
      only for a name with a suffix. */
  function DetectDelimiter(filename: string): (d: Option<char>)
    ensures d.Some? ==> d.value == '\t' || d.value == ','
    ensures d.Some? ==> Suffix(Name(filename)) != ""
  {
    var suffix := Lower(Suffix(Name(filename)));
    if suffix == ".tsv" then Some('\t')
    else if suffix == ".csv" then Some(',')
    else None
  }

  /** The `sep` read_table_bytes passes: the detected delimiter, else sniffing. */
  function ChooseSep(filename: string): (sep: Sep)
    ensures sep.Sniff? <==> DetectDelimiter(filename).None?
    ensures sep.Fixed? ==> sep.c == DetectDelimiter(filename).value
  {
    match DetectDelimiter(filename)
    case Some(d) => Fixed(d)
    case None => Sniff
  }

  /** read_table_bytes: parse with the chosen separator. */
  function ReadTableBytes(parse: (seq<byte>, Sep) -> ParseOutcome, raw: seq<byte>, filename: string): (r: ParseOutcome)
    ensures DetectDelimiter(filename) == Some('\t') ==> r == parse(raw, Fixed('\t'))
    ensures DetectDelimiter(filename) == Some(',') ==> r == parse(raw, Fixed(','))
    ensures DetectDelimiter(filename).None? ==> r == parse(raw, Sniff)
  {
    parse(raw, ChooseSep(filename))
  }

  /** A directory prefix does not change the name of a plain last component. */
  lemma NameOfLastComponent(dir: string, file: string)
    requires dir == "" || dir[|dir| - 1] == '/'
    requires '/' !in file && file != "" && file != "."
    ensures Name(dir + file) == file
  {
    LastSlashOfPath(dir, file);
    assert (dir + file)[|dir|..] == file;
  }

  /** The last slash of `dir/file` is the one that ends `dir`. */
  lemma LastSlashOfPath(dir: string, file: string)
    requires dir == "" || dir[|dir| - 1] == '/'
    requires '/' !in file
    ensures LastIndex(dir + file, '/') == |dir| - 1
  {
    var p := dir + file;
    var k := LastIndex(p, '/');
    forall j | |dir| <= j < |p|
      ensures p[j] != '/'
    {
      assert p[j] == file[j - |dir|];
    }
    if dir != "" {
      assert p[|dir| - 1] == '/';
    }
  }

  /** The suffix of `stem + ext`, for an extension of one dot and at least one
      more character, is `ext`, whatever dots the (non-empty) stem contains. */
  lemma SuffixOfExtension(stem: string, ext: string)
    requires stem != [] && |ext| >= 2 && ext[0] == '.' && '.' !in ext[1..]
    ensures Suffix(stem + ext) == ext
  {
    var name := stem + ext;
    forall j | |stem| < j < |name|
      ensures name[j] != '.'
    {
      assert name[j] == ext[1..][j - |stem| - 1];
    }
    assert name[|stem|] == '.';
    assert LastIndex(name, '.') == |stem|;
    assert name[|stem|..] == ext;
  }

  /** A lowered extension of the form ".xyz" comes from one of the same form. */
  lemma ExtensionShape(ext: string, lowered: string)
    requires Lower(ext) == lowered && |lowered| >= 2 && lowered[0] == '.' && '.' !in lowered[1..] && '/' !in lowered
    ensures |ext| >= 2 && ext[0] == '.' && '.' !in ext[1..] && '/' !in ext
  {
    assert LowerChar(ext[0]) == '.';
    forall j | 1 <= j < |ext|
      ensures ext[j] != '.' && ext[j] != '/'
    {
      assert LowerChar(ext[j]) == lowered[1..][j - 1];
    }
    forall j | 0 <= j < |ext|
      ensures ext[j] != '/'
    {
      assert LowerChar(ext[j]) == lowered[j];
    }
  }

  /** Two parts without a slash join to a name without one. */
  lemma NoSlashJoin(stem: string, ext: string)
    requires '/' !in stem && '/' !in ext
    ensures '/' !in stem + ext
  {
    forall j | 0 <= j < |stem + ext|
      ensures (stem + ext)[j] != '/'
    {
      if j >= |stem| {
        assert (stem + ext)[j] == ext[j - |stem|];
      }
    }
  }

  /** A file named `stem.tsv` or `stem.csv`, in any letter case and in any
      directory, is read with tab or comma; a longer name such as `a.tsv.csv`
      counts only by its last extension. */
  lemma DelimiterFromExtension(dir: string, stem: string, ext: string)
    requires dir == "" || dir[|dir| - 1] == '/'
    requires stem != "" && '/' !in stem
    requires Lower(ext) == ".tsv" || Lower(ext) == ".csv"
    ensures DetectDelimiter(dir + stem + ext) == if Lower(ext) == ".tsv" then Some('\t') else Some(',')
  {
    ExtensionShape(ext, Lower(ext));
    ExtensionOfPath(dir, stem, ext);
  }

  /** Any other extension, such as ".txt", leaves the delimiter to sniffing. */
  lemma OtherExtensionSniffs(dir: string, stem: string, ext: string)
    requires dir == "" || dir[|dir| - 1] == '/'
    requires stem != "" && '/' !in stem
    requires |ext| >= 2 && ext[0] == '.' && '.' !in ext[1..] && '/' !in ext
    requires Lower(ext) != ".tsv" && Lower(ext) != ".csv"
    ensures DetectDelimiter(dir + stem + ext) == None
    ensures ChooseSep(dir + stem + ext) == Sniff
  {
    ExtensionOfPath(dir, stem, ext);
    SniffedSuffix(dir + stem + ext, ext);
  }

  /** The suffix of `dir/stem.ext` is `.ext`. */
  lemma ExtensionOfPath(dir: string, stem: string, ext: string)
    requires dir == "" || dir[|dir| - 1] == '/'
    requires stem != "" && '/' !in stem
    requires |ext| >= 2 && ext[0] == '.' && '.' !in ext[1..] && '/' !in ext
    ensures Suffix(Name(dir + stem + ext)) == ext
  {
    NoSlashJoin(stem, ext);
    assert dir + stem + ext == dir + (stem + ext);
    NameOfLastComponent(dir, stem + ext);
    SuffixOfExtension(stem, ext);
  }

  /** A file whose lowered suffix is neither ".tsv" nor ".csv" is sniffed. */
  lemma SniffedSuffix(filename: string, ext: string)
    requires Suffix(Name(filename)) == ext
    requires Lower(ext) != ".tsv" && Lower(ext) != ".csv"
    ensures DetectDelimiter(filename) == None
    ensures ChooseSep(filename) == Sniff
  {
  }

  /** A name without a dot, or a dot file such as ".tsv", has no suffix and
      is sniffed. */
  lemma NoSuffixSniffs(dir: string, file: string)
    requires dir == "" || dir[|dir| - 1] == '/'
    requires '/' !in file && file != "" && file != "."
    requires '.' !in file[1..]
    ensures DetectDelimiter(dir + file) == None
    ensures ChooseSep(dir + file) == Sniff
  {
    NameOfLastComponent(dir, file);
    assert Suffix(file) == "";
  }
}
