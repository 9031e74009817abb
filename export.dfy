/** The file-name handling and chunked export of the notebook's last cells
    (app.py:274, 397-442): the extension that picks the loader, the output base
    name, the split decision and the part files. */
module Export {
  import opened Wrappers
  import opened Chars
  import opened Transformers

  // ---------------------------------------------------------------------------
  // str.split and str.join on one separator character
  // ---------------------------------------------------------------------------

  /** The position of the last `c` in `s`. */
  function LastIndexOf(s: string, c: char): (r: Option<nat>)
    ensures r.None? <==> c !in s
    ensures r.Some? ==> r.value < |s| && s[r.value] == c && c !in s[r.value + 1..]
    decreases |s|
  {
    if s == [] then None
    else if s[|s| - 1] == c then Some(|s| - 1)
    else
      var r := LastIndexOf(s[..|s| - 1], c);
      assert r.Some? ==> s[r.value + 1..] == s[..|s| - 1][r.value + 1..] + [s[|s| - 1]];
      assert s == s[..|s| - 1] + [s[|s| - 1]];
      r
  }

  /** `s.split(sep)`: the pieces between the separators, at least one. */
  function Split(s: string, sep: char): (parts: seq<string>)
    ensures |parts| >= 1
    ensures forall i :: 0 <= i < |parts| ==> sep !in parts[i]
    decreases |s|
  {
    match LastIndexOf(s, sep)
    case None => [s]
    case Some(i) => Split(s[..i], sep) + [s[i + 1..]]
  }

  /** `sep.join(parts)`. */
  function Join(parts: seq<string>, sep: char): string
    decreases |parts|
  {
    if parts == [] then []
    else if |parts| == 1 then parts[0]
    else Join(parts[..|parts| - 1], sep) + [sep] + parts[|parts| - 1]
  }

  /** Joining the pieces of a split with the same separator gives the text back. */
  lemma {:induction false} JoinSplit(s: string, sep: char)
    ensures Join(Split(s, sep), sep) == s
    decreases |s|
  {
    match LastIndexOf(s, sep)
    case None =>
    case Some(i) =>
      var front := Split(s[..i], sep);
      JoinSplit(s[..i], sep);
      var parts := front + [s[i + 1..]];
      assert parts[..|parts| - 1] == front;
      assert s == s[..i] + [sep] + s[i + 1..];
  }

  /** Splitting never loses a separator: the last piece is what follows the last
      separator, and the others are the split of what precedes it. */
  lemma SplitAtLast(s: string, sep: char, i: nat)
    requires LastIndexOf(s, sep) == Some(i)
    ensures var parts := Split(s, sep);
      parts[|parts| - 1] == s[i + 1..] && parts[..|parts| - 1] == Split(s[..i], sep)
  {
  }

  // ---------------------------------------------------------------------------
  // File names (app.py:274, 397)
  // ---------------------------------------------------------------------------

  /** `filename.lower().split('.')[-1]`. */
  function FileExtension(filename: string): (ext: string)
    ensures '.' !in ext
  {
    var parts := Split(Lower(filename), '.');
    parts[|parts| - 1]
  }

  lemma {:induction false} LowerKeepsDots(s: string)
    ensures LastIndexOf(Lower(s), '.') == LastIndexOf(s, '.')
    decreases |s|
  {
    if s != [] {
      var low, init := Lower(s), s[..|s| - 1];
      assert low[..|s| - 1] == Lower(init);
      assert low[|s| - 1] == '.' <==> s[|s| - 1] == '.';
      LowerKeepsDots(init);
    }
  }

  /** The extension is the lower-cased text after the last dot, or the whole
      lower-cased name when there is no dot. */
  lemma FileExtensionIs(filename: string)
    ensures LastIndexOf(filename, '.').None? ==> FileExtension(filename) == Lower(filename)
    ensures LastIndexOf(filename, '.').Some? ==>
      FileExtension(filename) == Lower(filename[LastIndexOf(filename, '.').value + 1..])
  {
    var low := Lower(filename);
    LowerKeepsDots(filename);
    match LastIndexOf(filename, '.')
    case None =>
      assert Split(low, '.') == [low];
    case Some(i) =>
      SplitAtLast(low, '.', i);
      LowerSuffix(filename, i + 1);
  }

  lemma LowerSuffix(s: string, k: nat)
    requires k <= |s|
    ensures Lower(s)[k..] == Lower(s[k..])
  {
  }

  /** How the upload is read (app.py:278-290). */
  datatype Loader = Csv | Excel(openpyxl: bool)

  /** The loader chosen by the extension, or the `ValueError` for any other
      extension. */
  function ChooseLoader(filename: string): (r: Result<Loader, string>)
    ensures r == Success(Csv) <==> FileExtension(filename) == "csv"
    ensures r.Success? && r.value.Excel? <==> FileExtension(filename) in {"xlsx", "xls"}
    ensures r.Success? && r.value.Excel? ==> (r.value.openpyxl <==> FileExtension(filename) == "xlsx")
    ensures r.Failure? ==> r.error == FileExtension(filename)
  {
    var ext := FileExtension(filename);
    if ext == "csv" then Success(Csv)
    else if ext == "xlsx" || ext == "xls" then Success(Excel(ext == "xlsx"))
    else Failure(ext)
  }

  /** `'.'.join(filename.split('.')[:-1]) + '_cleaned'`. */
  function BaseFilename(filename: string): (base: string)
    ensures |base| >= |"_cleaned"| && base[|base| - |"_cleaned"|..] == "_cleaned"
  {
    var parts := Split(filename, '.');
    Join(parts[..|parts| - 1], '.') + "_cleaned"
  }

  /** The base name drops the last dot and what follows it; a name without a dot
      leaves nothing but the suffix. */
  lemma BaseFilenameIs(filename: string)
    ensures LastIndexOf(filename, '.').None? ==> BaseFilename(filename) == "_cleaned"
    ensures LastIndexOf(filename, '.').Some? ==>
      BaseFilename(filename) == filename[..LastIndexOf(filename, '.').value] + "_cleaned"
  {
    match LastIndexOf(filename, '.')
    case None =>
    case Some(i) =>
      SplitAtLast(filename, '.', i);
      JoinSplit(filename[..i], '.');
  }

  // ---------------------------------------------------------------------------
  // Decimal part numbers
  // ---------------------------------------------------------------------------

  function Digit(d: nat): (c: char)
    requires d < 10
    ensures '0' <= c <= '9'
  {
    ('0' as int + d) as char
  }

  /** The decimal text of `n`, as an f-string prints it: no leading zero, and
      "0" only for zero. */
  function NatToString(n: nat): (s: string)
    ensures |s| >= 1
    ensures forall i :: 0 <= i < |s| ==> '0' <= s[i] <= '9'
    ensures s[0] == '0' <==> n == 0
    ensures |s| == 1 <==> n < 10
  {
    if n < 10 then [Digit(n)] else NatToString(n / 10) + [Digit(n % 10)]
  }

  /** The value of a string of decimal digits. */
  function ParseNat(s: string): nat
    requires forall i :: 0 <= i < |s| ==> '0' <= s[i] <= '9'
  {
    if s == [] then 0 else ParseNat(s[..|s| - 1]) * 10 + (s[|s| - 1] as int - '0' as int)
  }

  lemma {:induction false} ParseNatToString(n: nat)
    ensures ParseNat(NatToString(n)) == n
  {
    if n >= 10 {
      ParseNatToString(n / 10);
      var s := NatToString(n);
      assert s[..|s| - 1] == NatToString(n / 10);
    }
  }

  // ---------------------------------------------------------------------------
  // Chunked export (app.py:395-442)
  // ---------------------------------------------------------------------------

  const CHUNK_SIZE: nat := 10000

  /** `(total // CHUNK_SIZE) + (1 if total % CHUNK_SIZE > 0 else 0)`. */
  function PartCount(total: nat): (n: nat)
    ensures total <= n * CHUNK_SIZE
    ensures total > 0 ==> (n - 1) * CHUNK_SIZE < total
    ensures total == 0 <==> n == 0
  {
    total / CHUNK_SIZE + (if total % CHUNK_SIZE > 0 then 1 else 0)
  }

  /** One exported file: its name and the half-open row range it holds. */
  datatype Part = Part(name: string, start: nat, end: nat)

  /** `f"{base_filename}_part{i}.xlsx"`. */
  function PartName(base: string, number: nat): string {
    base + "_part" + NatToString(number) + ".xlsx"
  }

  /** Different part numbers give different file names. */
  lemma PartNameInjective(base: string, a: nat, b: nat)
    requires PartName(base, a) == PartName(base, b)
    ensures a == b
  {
    var sa, sb := PartName(base, a), PartName(base, b);
    var k := |base| + 5;
    assert sa[k..|sa| - 5] == NatToString(a);
    assert sb[k..|sb| - 5] == NatToString(b);
    ParseNatToString(a);
    ParseNatToString(b);
  }

  function Min(a: nat, b: nat): nat {
    if a <= b then a else b
  }

  /** Part `i` (counted from 0): rows `[i * CHUNK_SIZE, min((i + 1) * CHUNK_SIZE, total))`. */
  function ChunkAt(base: string, total: nat, i: nat): Part {
    Part(PartName(base, i + 1), i * CHUNK_SIZE, Min((i + 1) * CHUNK_SIZE, total))
  }

  /** Every part file of a split export. */
  function Chunks(base: string, total: nat): seq<Part> {
    seq(PartCount(total), i requires 0 <= i => ChunkAt(base, total, i))
  }

  /** The parts cut `[0, total)` into consecutive, non-empty ranges of at most
      CHUNK_SIZE rows; row `r` lies in part `r / CHUNK_SIZE`. */
  lemma ChunksPartition(base: string, total: nat)
    ensures var ps := Chunks(base, total);
      (total > 0 ==> ps[0].start == 0 && ps[|ps| - 1].end == total) &&
      (forall i :: 0 <= i < |ps| ==> ps[i].start < ps[i].end <= ps[i].start + CHUNK_SIZE) &&
      (forall i :: 0 <= i < |ps| - 1 ==> ps[i].end == ps[i + 1].start) &&
      (forall r :: 0 <= r < total ==>
        r / CHUNK_SIZE < |ps| && ps[r / CHUNK_SIZE].start <= r < ps[r / CHUNK_SIZE].end)
  {
    var ps := Chunks(base, total);
    var n := PartCount(total);
    forall i | 0 <= i < n
      ensures ps[i].start < ps[i].end <= ps[i].start + CHUNK_SIZE
    {
      assert i * CHUNK_SIZE <= (n - 1) * CHUNK_SIZE;
    }
    forall r | 0 <= r < total
      ensures r / CHUNK_SIZE < n && ps[r / CHUNK_SIZE].start <= r < ps[r / CHUNK_SIZE].end
    {
      var q := r / CHUNK_SIZE;
      assert q * CHUNK_SIZE <= r < (q + 1) * CHUNK_SIZE;
      assert q * CHUNK_SIZE < n * CHUNK_SIZE;
    }
  }

  /** No two parts share a file name. */
  lemma ChunkNamesDistinct(base: string, total: nat)
    ensures var ps := Chunks(base, total);
      forall i, k :: 0 <= i < k < |ps| ==> ps[i].name != ps[k].name
  {
    var ps := Chunks(base, total);
    forall i, k | 0 <= i < k < |ps|
      ensures ps[i].name != ps[k].name
    {
      if ps[i].name == ps[k].name {
        PartNameInjective(base, i + 1, k + 1);
      }
    }
  }

  /** `SPLIT_FILES` (app.py:350-361): asked only above CHUNK_SIZE rows, and yes
      exactly when the stripped reply is "1". */
  function SplitChoice(totalRows: nat, reply: string): (split: bool)
    ensures split ==> totalRows > CHUNK_SIZE
    ensures totalRows > CHUNK_SIZE ==> (split <==> Strip(reply) == "1")
  {
    if totalRows > CHUNK_SIZE then Strip(reply) == "1" else false
  }

  /** The export cell (app.py:395-442): the files written, in order, with the rows
      each holds. */
  method ExportFiles(filename: string, totalRows: nat, splitFiles: bool) returns (exported: seq<Part>)
    ensures totalRows > CHUNK_SIZE && splitFiles ==> exported == Chunks(BaseFilename(filename), totalRows)
    ensures !(totalRows > CHUNK_SIZE && splitFiles) ==> exported == [Part(BaseFilename(filename) + ".xlsx", 0, totalRows)]
  {
    var base := BaseFilename(filename);
    if totalRows > CHUNK_SIZE && splitFiles {
      var numFiles := (totalRows / CHUNK_SIZE) + (if totalRows % CHUNK_SIZE > 0 then 1 else 0);
      exported := [];
      var i := 0;
      while i < numFiles
        invariant 0 <= i <= numFiles
        invariant |exported| == i
        invariant forall m :: 0 <= m < i ==> exported[m] == ChunkAt(base, totalRows, m)
      {
        var startIdx := i * CHUNK_SIZE;
        var endIdx := Min((i + 1) * CHUNK_SIZE, totalRows);
        var partFilename := base + "_part" + NatToString(i + 1) + ".xlsx";
        exported := exported + [Part(partFilename, startIdx, endIdx)];
        i := i + 1;
      }
    } else {
      exported := [Part(base + ".xlsx", 0, totalRows)];
    }
  }
}
