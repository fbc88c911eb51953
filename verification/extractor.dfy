/**
 * `read_data_from_content`: splits Part I into blocks at each `"\n\n"`,
 * that is at an empty line (a line of spaces or a lone `'\r'` does not end
 * a block, so the rows behind it go to the previous deductor), takes each block's first line as the deductor identity, captures the
 * column header once, and emits one record per matching transaction line.
 */
module Extractor {
  import opened Wrappers
  import opened PyText
  import opened Layout

  /** The state carried through the loops: the header once captured, and the records so far. */
  datatype Scan = Scan(header: Option<seq<string>>, records: seq<seq<string>>)

  /** The value returned: the full header and the records. */
  datatype Extracted = Extracted(header: seq<string>, records: seq<seq<string>>)

  /** A non-blank line after a block's first line, as its cleaned fields, with the block's identity. */
  datatype Candidate = Candidate(identity: seq<string>, cols: seq<string>)

  /** Python truthiness of `header`: neither `None` nor the empty list. */
  predicate HasHeader(h: Option<seq<string>>) {
    h.Some? && |h.value| > 0
  }

  /** A field as it appears in a record: stripped and non-empty. */
  predicate IsCleanField(f: string) {
    f != "" && Strip(f) == f
  }

  /** `[col.strip() for col in cols if col.strip()]`. */
  function CleanFields(cols: seq<string>): (r: seq<string>)
    ensures |r| <= |cols|
    ensures forall k :: 0 <= k < |r| ==> IsCleanField(r[k])
  {
    if |cols| == 0 then []
    else
      var c := Strip(cols[0]);
      var rest := CleanFields(cols[1..]);
      StripIdempotent(cols[0]);
      if c != "" then
        assert IsCleanField(c);
        [c] + rest
      else rest
  }

  /** The cleaned `^`-fields of one line. */
  function Fields(line: string): seq<string>
  {
    CleanFields(Split(line, "^"))
  }

  /** The accept test for a data line: non-empty, all-digit first field, as many fields as the header. */
  predicate IsRecordLine(cols: seq<string>, header: seq<string>) {
    |cols| > 0 && IsDigits(cols[0]) && |cols| == |header|
  }

  /**
   * One pass of the inner loop body on a non-blank line: adopt the fields
   * as header if none is held yet and they contain `"Sr. No."` as an
   * element; otherwise, with a header held, append identity ++ fields when
   * the line is a record line; otherwise change nothing.
   */
  function Step(st: Scan, c: Candidate): (r: Scan)
    ensures HasHeader(st.header) ==> r.header == st.header
    ensures !HasHeader(st.header) ==> r.records == st.records
    ensures st.records <= r.records && |r.records| <= |st.records| + 1
    ensures |r.records| == |st.records| + 1 ==> r.records[|st.records|] == c.identity + c.cols
  {
    if !HasHeader(st.header) && SerialColumn in c.cols then Scan(Some(c.cols), st.records)
    else if HasHeader(st.header) && IsRecordLine(c.cols, st.header.value) then
      Scan(st.header, st.records + [c.identity + c.cols])
    else st
  }

  /** The inner loop body on any line: blank lines are skipped. */
  function ScanLine(st: Scan, identity: seq<string>, line: string): Scan
  {
    if Strip(line) == "" then st else Step(st, Candidate(identity, Fields(line)))
  }

  /** The inner loop over the lines after a block's first line. */
  function ScanLines(st: Scan, identity: seq<string>, lines: seq<string>): Scan
    decreases |lines|
  {
    if |lines| == 0 then st else ScanLines(ScanLine(st, identity, lines[0]), identity, lines[1..])
  }

  /** The lines of a block: `section.strip().split('\n')`. */
  function BlockLines(block: string): (lines: seq<string>)
    ensures |lines| >= 1
  {
    Split(Strip(block), "\n")
  }

  /** The first three `^`-fields of the block's first line, unstripped, if it has three. */
  function Identity(block: string): (r: Option<seq<string>>)
    ensures r.Some? ==> |r.value| == 3
  {
    var info := Split(BlockLines(block)[0], "^");
    if |info| < 3 then None else Some(info[..3])
  }

  /** One pass of the outer loop: a block without an identity is skipped. */
  function ScanBlock(st: Scan, block: string): Scan
  {
    match Identity(block)
    case None => st
    case Some(id) => ScanLines(st, id, BlockLines(block)[1..])
  }

  /** The outer loop over the blocks. */
  function ScanBlocks(st: Scan, blocks: seq<string>): Scan
    decreases |blocks|
  {
    if |blocks| == 0 then st else ScanBlocks(ScanBlock(st, blocks[0]), blocks[1..])
  }

  /**
   * The blocks of Part I: the text between the first and second marker,
   * split at each `"\n\n"`. Only an empty line ends a block; a line of
   * spaces or a lone `'\r'` does not, so the rows behind it stay in the
   * block of the previous deductor.
   */
  function Blocks(content: string): seq<string>
    requires Contains(content, Marker)
  {
    Split(Split(content, Marker)[1], "\n\n")
  }

  // ---------------------------------------------------------------------
  // Reference definition: the candidate lines in document order, the first
  // one naming "Sr. No." as header, and the record lines after it.
  // ---------------------------------------------------------------------

  /** A candidate as the extractor can see it: three identity fields and clean fields. */
  predicate WellFormed(c: Candidate) {
    |c.identity| == 3 && forall k :: 0 <= k < |c.cols| ==> IsCleanField(c.cols[k])
  }

  /** The candidates of some lines of one block: the non-blank ones, in order. */
  function LineCandidates(identity: seq<string>, lines: seq<string>): (r: seq<Candidate>)
    ensures forall c :: c in r ==> c.identity == identity
    ensures |identity| == 3 ==> forall c :: c in r ==> WellFormed(c)
  {
    if |lines| == 0 then []
    else
      (if Strip(lines[0]) == "" then [] else [Candidate(identity, Fields(lines[0]))])
        + LineCandidates(identity, lines[1..])
  }

  /** The candidates of one block: none when its first line has fewer than three fields. */
  function BlockCandidates(block: string): (r: seq<Candidate>)
    ensures forall c :: c in r ==> WellFormed(c) && Identity(block) == Some(c.identity)
  {
    match Identity(block)
    case None => []
    case Some(id) => LineCandidates(id, BlockLines(block)[1..])
  }

  /** The candidates of all blocks, in block order and line order, each tied to its block. */
  function Candidates(blocks: seq<string>): (r: seq<Candidate>)
    ensures forall c :: c in r ==> WellFormed(c)
    ensures forall c :: c in r ==> exists b :: b in blocks && Identity(b) == Some(c.identity)
  {
    if |blocks| == 0 then []
    else
      var first := BlockCandidates(blocks[0]);
      var rest := Candidates(blocks[1..]);
      forall c | c in first + rest
        ensures WellFormed(c) && exists b :: b in blocks && Identity(b) == Some(c.identity)
      {
        if c in first {
          assert blocks[0] in blocks;
        } else {
          var b :| b in blocks[1..] && Identity(b) == Some(c.identity);
          assert b in blocks;
        }
      }
      first + rest
  }

  /** The first candidate naming `"Sr. No."` among its fields, if any. */
  function HeaderIndex(cs: seq<Candidate>): (r: Option<nat>)
    ensures r.None? <==> forall j :: 0 <= j < |cs| ==> SerialColumn !in cs[j].cols
    ensures r.Some? ==> r.value < |cs| && SerialColumn in cs[r.value].cols
    ensures r.Some? ==> forall j :: 0 <= j < r.value ==> SerialColumn !in cs[j].cols
  {
    if |cs| == 0 then None
    else if SerialColumn in cs[0].cols then Some(0)
    else match HeaderIndex(cs[1..])
      case None => None
      case Some(i) => Some(i + 1)
  }

  /** The records the candidates yield under a fixed header: identity ++ fields of each record line, in order. */
  function Emitted(cs: seq<Candidate>, header: seq<string>): (r: seq<seq<string>>)
    ensures |r| <= |cs|
    ensures forall rec :: rec in r ==> exists c :: c in cs && IsRecordLine(c.cols, header) && rec == c.identity + c.cols
  {
    if |cs| == 0 then []
    else
      var r := (if IsRecordLine(cs[0].cols, header) then [cs[0].identity + cs[0].cols] else [])
        + Emitted(cs[1..], header);
      assert forall c :: c in cs[1..] ==> c in cs;
      r
  }

  /** The state the extractor should end in, from the candidate list alone. */
  function Expected(cs: seq<Candidate>): Scan
  {
    match HeaderIndex(cs)
    case None => Scan(None, [])
    case Some(h) => Scan(Some(cs[h].cols), Emitted(cs[h + 1..], cs[h].cols))
  }

  /** The loop body applied to the candidates in order. */
  function Fold(st: Scan, cs: seq<Candidate>): Scan
    decreases |cs|
  {
    if |cs| == 0 then st else Fold(Step(st, cs[0]), cs[1..])
  }

  /**
   * `read_data_from_content`: an `IndexError` exactly when the marker is
   * absent, otherwise the "Header not found" error or a header that starts
   * with the identity column names and names `"Sr. No."` after them. Every
   * record is as long as the header, its first field after the identity is
   * all digits, and all its fields after the identity are stripped and
   * non-empty.
   */
  function ReadData(content: string): (r: Result<Extracted, Error>)
    ensures r == Failure(SectionIndex) <==> !Contains(content, Marker)
    ensures r.Failure? ==> r.error in {SectionIndex, MissingHeader}
    ensures r.Success? ==> |r.value.header| > 3 && r.value.header[..3] == IdentityColumns
    ensures r.Success? ==> SerialColumn in r.value.header[3..]
    ensures r.Success? ==> forall rec :: rec in r.value.records ==> IsRecordOf(rec, r.value.header)
  {
    var sections := Split(content, Marker);
    if |sections| < 2 then Failure(SectionIndex)
    else
      var st := ScanBlocks(Scan(None, []), Blocks(content));
      ReadDataAsReference(content);
      if !HasHeader(st.header) then Failure(MissingHeader)
      else Success(Extracted(IdentityColumns + st.header.value, st.records))
  }

  /** The reference outcome of reading `content`, from its candidate lines alone. */
  function Reference(content: string): Result<Extracted, Error>
  {
    if !Contains(content, Marker) then Failure(SectionIndex)
    else
      var cs := Candidates(Blocks(content));
      match HeaderIndex(cs)
      case None => Failure(MissingHeader)
      case Some(h) => Success(Extracted(IdentityColumns + cs[h].cols, Emitted(cs[h + 1..], cs[h].cols)))
  }

  /**
   * The loops reach the reference state: with the marker present, the
   * header is the first candidate naming `"Sr. No."` and the records are
   * the record lines after it, in document order.
   */
  lemma ReadDataAsReference(content: string)
    requires Contains(content, Marker)
    ensures var st := ScanBlocks(Scan(None, []), Blocks(content));
      && st == Expected(Candidates(Blocks(content)))
      && (HasHeader(st.header) <==> st.header.Some?)
      && (st.header.Some? ==> SerialColumn in st.header.value)
      && (st.header.Some? ==> forall rec :: rec in st.records ==> IsRecordOf(rec, IdentityColumns + st.header.value))
  {
    ScanBlocksAsFold(Scan(None, []), Blocks(content));
    FoldFromStart(Candidates(Blocks(content)));
    ExpectedShape(Candidates(Blocks(content)));
  }

  /** `read_data_from_content` agrees with the reference definition on every input. */
  lemma ReadDataMatchesReference(content: string)
    ensures ReadData(content) == Reference(content)
  {
    if Contains(content, Marker) {
      ReadDataAsReference(content);
    }
  }

  /** Records of the record shape are as wide as the header, as the data frame demands. */
  lemma RecordsFitHeader(records: seq<seq<string>>, header: seq<string>)
    requires forall rec :: rec in records ==> IsRecordOf(rec, header)
    ensures forall i :: 0 <= i < |records| ==> |records[i]| == |header|
  {
    forall i | 0 <= i < |records|
      ensures |records[i]| == |header|
    {
      assert records[i] in records;
    }
  }

  /** A record under a full header: as long as the header, digits first after the identity, clean fields after it. */
  predicate IsRecordOf(rec: seq<string>, header: seq<string>) {
    && |rec| == |header| > 3
    && IsDigits(rec[3])
    && forall k :: 3 <= k < |rec| ==> IsCleanField(rec[k])
  }

  /** Folding over two lists is folding over the first, then the second. */
  lemma {:induction false} FoldAppend(st: Scan, a: seq<Candidate>, b: seq<Candidate>)
    ensures Fold(st, a + b) == Fold(Fold(st, a), b)
    decreases |a|
  {
    if |a| == 0 {
      assert a + b == b;
    } else {
      assert (a + b)[0] == a[0];
      assert (a + b)[1..] == a[1..] + b;
      FoldAppend(Step(st, a[0]), a[1..], b);
      assert Fold(st, a + b) == Fold(Step(st, a[0]), a[1..] + b);
      assert Fold(st, a) == Fold(Step(st, a[0]), a[1..]);
    }
  }

  /** The inner loop is the step applied to the block's candidates. */
  lemma {:induction false} ScanLinesAsFold(st: Scan, identity: seq<string>, lines: seq<string>)
    ensures ScanLines(st, identity, lines) == Fold(st, LineCandidates(identity, lines))
    decreases |lines|
  {
    if |lines| > 0 {
      var rest := LineCandidates(identity, lines[1..]);
      ScanLinesAsFold(ScanLine(st, identity, lines[0]), identity, lines[1..]);
      if Strip(lines[0]) != "" {
        var c := Candidate(identity, Fields(lines[0]));
        assert LineCandidates(identity, lines) == [c] + rest;
        assert ([c] + rest)[1..] == rest;
      } else {
        assert LineCandidates(identity, lines) == rest;
      }
    }
  }

  /** Both loops together are the step applied to all candidates in document order. */
  lemma {:induction false} ScanBlocksAsFold(st: Scan, blocks: seq<string>)
    ensures ScanBlocks(st, blocks) == Fold(st, Candidates(blocks))
    decreases |blocks|
  {
    if |blocks| > 0 {
      var b := blocks[0];
      if Identity(b).Some? {
        ScanLinesAsFold(st, Identity(b).value, BlockLines(b)[1..]);
      }
      assert ScanBlock(st, b) == Fold(st, BlockCandidates(b));
      FoldAppend(st, BlockCandidates(b), Candidates(blocks[1..]));
      ScanBlocksAsFold(ScanBlock(st, b), blocks[1..]);
    }
  }

  /** Once a header is held it is never replaced, and records are only appended, one per record line. */
  lemma {:induction false} FoldAfterHeader(h: seq<string>, recs: seq<seq<string>>, cs: seq<Candidate>)
    requires |h| > 0
    ensures Fold(Scan(Some(h), recs), cs) == Scan(Some(h), recs + Emitted(cs, h))
    decreases |cs|
  {
    if |cs| > 0 {
      var c := cs[0];
      if IsRecordLine(c.cols, h) {
        FoldAfterHeader(h, recs + [c.identity + c.cols], cs[1..]);
        assert recs + [c.identity + c.cols] + Emitted(cs[1..], h) == recs + Emitted(cs, h);
      } else {
        FoldAfterHeader(h, recs, cs[1..]);
      }
    }
  }

  /** From the initial state the step reaches the reference state. */
  lemma {:induction false} FoldFromStart(cs: seq<Candidate>)
    ensures Fold(Scan(None, []), cs) == Expected(cs)
    decreases |cs|
  {
    if |cs| > 0 {
      if SerialColumn in cs[0].cols {
        FoldAfterHeader(cs[0].cols, [], cs[1..]);
        assert [] + Emitted(cs[1..], cs[0].cols) == Emitted(cs[1..], cs[0].cols);
      } else {
        FoldFromStart(cs[1..]);
        match HeaderIndex(cs[1..])
        case None =>
        case Some(i) =>
          assert cs[i + 1] == cs[1..][i];
          assert cs[i + 2..] == cs[1..][i + 1..];
      }
    }
  }

  /** The reference state's header names "Sr. No." and its records have the record shape. */
  lemma ExpectedShape(cs: seq<Candidate>)
    requires forall c :: c in cs ==> WellFormed(c)
    ensures Expected(cs).header.Some? ==> SerialColumn in Expected(cs).header.value
    ensures Expected(cs).header.Some? ==>
      forall rec :: rec in Expected(cs).records ==> IsRecordOf(rec, IdentityColumns + Expected(cs).header.value)
  {
    match HeaderIndex(cs)
    case None =>
    case Some(h) =>
      var header := cs[h].cols;
      forall rec | rec in Emitted(cs[h + 1..], header)
        ensures IsRecordOf(rec, IdentityColumns + header)
      {
        var c :| c in cs[h + 1..] && IsRecordLine(c.cols, header) && rec == c.identity + c.cols;
        assert c in cs;
        RecordShape(c, header);
      }
  }

  /** A record line of a well-formed candidate, behind its identity, has the record shape. */
  lemma RecordShape(c: Candidate, header: seq<string>)
    requires WellFormed(c) && IsRecordLine(c.cols, header)
    ensures IsRecordOf(c.identity + c.cols, IdentityColumns + header)
  {
    IdentityWidth();
    CleanTail(c.identity, c.cols);
  }

  /** Behind a three-field identity, every field of clean fields stays clean. */
  lemma CleanTail(identity: seq<string>, cols: seq<string>)
    requires |identity| == 3
    requires forall k :: 0 <= k < |cols| ==> IsCleanField(cols[k])
    ensures forall k :: 3 <= k < |identity + cols| ==> IsCleanField((identity + cols)[k])
  {
  }

  /** The blocks whose first line has at least three `^`-fields, in order. */
  function IdentifiedBlocks(blocks: seq<string>): (r: seq<string>)
    ensures forall b :: b in r ==> b in blocks && Identity(b).Some?
    ensures forall b :: b in blocks && Identity(b).Some? ==> b in r
  {
    if |blocks| == 0 then []
    else (if Identity(blocks[0]).Some? then [blocks[0]] else []) + IdentifiedBlocks(blocks[1..])
  }

  /** A block whose first line has fewer than three fields neither sets the header nor adds records. */
  lemma {:induction false} UnidentifiedBlocksIgnored(st: Scan, blocks: seq<string>)
    ensures ScanBlocks(st, blocks) == ScanBlocks(st, IdentifiedBlocks(blocks))
    decreases |blocks|
  {
    if |blocks| > 0 {
      var b := blocks[0];
      var rest := IdentifiedBlocks(blocks[1..]);
      if Identity(b).Some? {
        UnidentifiedBlocksIgnored(ScanBlock(st, b), blocks[1..]);
        var r := [b] + rest;
        assert IdentifiedBlocks(blocks) == r;
        assert r[0] == b && r[1..] == rest;
        assert ScanBlocks(st, r) == ScanBlocks(ScanBlock(st, b), rest);
      } else {
        assert ScanBlock(st, b) == st;
        UnidentifiedBlocksIgnored(st, blocks[1..]);
        assert IdentifiedBlocks(blocks) == rest;
      }
    }
  }

  /** Blocks are processed in order: scanning `a + b` is scanning `a`, then `b`. */
  lemma {:induction false} ScanBlocksAppend(st: Scan, a: seq<string>, b: seq<string>)
    ensures ScanBlocks(st, a + b) == ScanBlocks(ScanBlocks(st, a), b)
    decreases |a|
  {
    if |a| == 0 {
      assert a + b == b;
    } else {
      assert (a + b)[0] == a[0];
      assert (a + b)[1..] == a[1..] + b;
      ScanBlocksAppend(ScanBlock(st, a[0]), a[1..], b);
    }
  }

  /**
   * Once captured, the header stays fixed for the rest of the document,
   * and the records already emitted stay in front, unchanged.
   */
  lemma HeaderNeverReplaced(h: seq<string>, recs: seq<seq<string>>, blocks: seq<string>)
    requires |h| > 0
    ensures ScanBlocks(Scan(Some(h), recs), blocks).header == Some(h)
    ensures recs <= ScanBlocks(Scan(Some(h), recs), blocks).records
  {
    ScanBlocksAsFold(Scan(Some(h), recs), blocks);
    FoldAfterHeader(h, recs, Candidates(blocks));
  }

  /**
   * The deductor number is the text before the first `^` of the block's
   * first line, unstripped: it is empty exactly when that line starts
   * with `^`.
   */
  lemma EmptyDeductorNumber(block: string)
    requires Identity(block).Some?
    ensures Identity(block).value[0] == "" <==> StartsWith(BlockLines(block)[0], "^")
  {
  }

  /** Every candidate of some lines is the fields of one of them, which is not blank. */
  lemma {:induction false} LineCandidatesOrigin(identity: seq<string>, lines: seq<string>)
    ensures forall c :: c in LineCandidates(identity, lines) ==>
      exists k :: 0 <= k < |lines| && Strip(lines[k]) != "" && c.cols == Fields(lines[k])
    decreases |lines|
  {
    if |lines| > 0 {
      LineCandidatesOrigin(identity, lines[1..]);
      forall c | c in LineCandidates(identity, lines)
        ensures exists k :: 0 <= k < |lines| && Strip(lines[k]) != "" && c.cols == Fields(lines[k])
      {
        if c !in LineCandidates(identity, lines[1..]) {
          assert Strip(lines[0]) != "" && c.cols == Fields(lines[0]);
        } else {
          var k :| 0 <= k < |lines[1..]| && Strip(lines[1..][k]) != "" && c.cols == Fields(lines[1..][k]);
          assert lines[1..][k] == lines[k + 1];
        }
      }
    }
  }

  /** Every candidate of one block is the fields of one of its lines after the first. */
  lemma BlockCandidatesOrigin(b: string)
    ensures forall c :: c in BlockCandidates(b) ==>
      exists k :: 1 <= k < |BlockLines(b)| && c.cols == Fields(BlockLines(b)[k])
  {
    if Identity(b).Some? {
      var inner := BlockLines(b)[1..];
      LineCandidatesOrigin(Identity(b).value, inner);
      forall c | c in BlockCandidates(b)
        ensures exists k :: 1 <= k < |BlockLines(b)| && c.cols == Fields(BlockLines(b)[k])
      {
        var k :| 0 <= k < |inner| && Strip(inner[k]) != "" && c.cols == Fields(inner[k]);
        assert inner[k] == BlockLines(b)[k + 1];
      }
    }
  }

  /** Every candidate is the fields of a line after the first of one of the blocks. */
  lemma {:induction false} CandidateFromInnerLine(blocks: seq<string>)
    ensures forall c :: c in Candidates(blocks) ==>
      exists b, k :: b in blocks && 1 <= k < |BlockLines(b)| && c.cols == Fields(BlockLines(b)[k])
    decreases |blocks|
  {
    if |blocks| > 0 {
      CandidateFromInnerLine(blocks[1..]);
      BlockCandidatesOrigin(blocks[0]);
      forall c | c in Candidates(blocks)
        ensures exists b, k :: b in blocks && 1 <= k < |BlockLines(b)| && c.cols == Fields(BlockLines(b)[k])
      {
        if c in BlockCandidates(blocks[0]) {
          assert blocks[0] in blocks;
        } else {
          var b', k :| b' in blocks[1..] && 1 <= k < |BlockLines(b')| && c.cols == Fields(BlockLines(b')[k]);
          assert b' in blocks;
        }
      }
    }
  }

  /**
   * The header is never a block's first line: it is the fields of a later
   * line of some block. A `Sr. No.` line that stands first in its block,
   * such as the summary header followed by the blank line the repair pass
   * inserts, is read as that block's identity instead.
   */
  lemma HeaderFromInnerLine(content: string)
    requires ReadData(content).Success?
    ensures Contains(content, Marker)
    ensures exists b, k ::
      && b in Blocks(content) && 1 <= k < |BlockLines(b)|
      && ReadData(content).value.header == IdentityColumns + Fields(BlockLines(b)[k])
  {
    ReadDataMatchesReference(content);
    var cs := Candidates(Blocks(content));
    var h := HeaderIndex(cs).value;
    assert cs[h] in cs;
    CandidateFromInnerLine(Blocks(content));
  }

  /**
   * When no line after the first of a block names `Sr. No.` as a field,
   * reading fails with "Header not found", whatever first lines name it.
   */
  lemma SerialOnlyInFirstLines(content: string)
    requires Contains(content, Marker)
    requires forall b, k :: b in Blocks(content) && 1 <= k < |BlockLines(b)| ==> SerialColumn !in Fields(BlockLines(b)[k])
    ensures ReadData(content) == Failure(MissingHeader)
  {
    if ReadData(content).Success? {
      HeaderFromInnerLine(content);
    }
  }

  /** Every record starts with the untrimmed identity fields of one of the blocks. */
  lemma RecordsCarryIdentity(content: string)
    requires ReadData(content).Success?
    ensures Contains(content, Marker)
    ensures forall rec :: rec in ReadData(content).value.records ==>
      exists b :: b in Blocks(content) && Identity(b) == Some(rec[..3])
  {
    ReadDataMatchesReference(content);
    var cs := Candidates(Blocks(content));
    var h := HeaderIndex(cs).value;
    var header := cs[h].cols;
    forall rec | rec in ReadData(content).value.records
      ensures exists b :: b in Blocks(content) && Identity(b) == Some(rec[..3])
    {
      var c :| c in cs[h + 1..] && IsRecordLine(c.cols, header) && rec == c.identity + c.cols;
      assert c in cs;
      assert rec[..3] == c.identity;
    }
  }

  /** Every cleaned field is the stripped form of one of the raw fields. */
  lemma {:induction false} CleanFieldOrigin(cols: seq<string>, x: string)
    requires x in CleanFields(cols)
    ensures exists k :: 0 <= k < |cols| && Strip(cols[k]) == x
    decreases |cols|
  {
    var c := Strip(cols[0]);
    if c != "" && x == c {
      assert Strip(cols[0]) == x;
    } else {
      assert x in CleanFields(cols[1..]);
      CleanFieldOrigin(cols[1..], x);
      var k :| 0 <= k < |cols[1..]| && Strip(cols[1..][k]) == x;
      assert cols[k + 1] == cols[1..][k];
    }
  }

  /** Every raw field that is not blank survives, stripped. */
  lemma {:induction false} CleanFieldKept(cols: seq<string>, k: nat)
    requires k < |cols| && Strip(cols[k]) != ""
    ensures Strip(cols[k]) in CleanFields(cols)
    decreases k
  {
    if k > 0 {
      assert cols[1..][k - 1] == cols[k];
      CleanFieldKept(cols[1..], k - 1);
    }
  }

  /** One raw field yields its stripped form, or nothing when it is blank. */
  lemma CleanFieldSingle(x: string)
    ensures CleanFields([x]) == if Strip(x) == "" then [] else [Strip(x)]
  {
  }

  /**
   * Cleaning keeps order and multiplicity: the cleaned fields of `a + b`
   * are those of `a` followed by those of `b`.
   */
  lemma {:induction false} CleanFieldsAppend(a: seq<string>, b: seq<string>)
    ensures CleanFields(a + b) == CleanFields(a) + CleanFields(b)
    decreases |a|
  {
    if |a| == 0 {
      assert a + b == b;
    } else {
      assert (a + b)[0] == a[0];
      assert (a + b)[1..] == a[1..] + b;
      CleanFieldsAppend(a[1..], b);
    }
  }

  /** A line one of whose fields is `t` contains `t`. */
  lemma FieldInLine(line: string, t: string)
    requires t in Fields(line)
    ensures Contains(line, t)
  {
    var cols := Split(line, "^");
    CleanFieldOrigin(cols, t);
    var k :| 0 <= k < |cols| && Strip(cols[k]) == t;
    ContainsSelf(t);
    StripKeepsOut(cols[k], t);
    PieceInWhole(line, "^", k, t);
  }

  /** Lines without `t` give candidates none of whose fields is `t`. */
  lemma {:induction false} LinesWithout(identity: seq<string>, lines: seq<string>, t: string)
    requires forall k :: 0 <= k < |lines| ==> !Contains(lines[k], t)
    ensures forall c :: c in LineCandidates(identity, lines) ==> t !in c.cols
    decreases |lines|
  {
    if |lines| > 0 {
      LinesWithout(identity, lines[1..], t);
      if t in Fields(lines[0]) {
        FieldInLine(lines[0], t);
      }
    }
  }

  /** A block without `t` gives candidates none of whose fields is `t`. */
  lemma BlockWithout(block: string, t: string)
    requires !Contains(block, t)
    ensures forall c :: c in BlockCandidates(block) ==> t !in c.cols
  {
    StrippedPiecesWithout(block, t);
    TailWithout(BlockLines(block), t);
    match Identity(block)
    case None =>
    case Some(id) => LinesWithout(id, BlockLines(block)[1..], t);
  }

  /** No line of the stripped text holds what the text does not hold. */
  lemma StrippedPiecesWithout(s: string, t: string)
    requires !Contains(s, t)
    ensures forall k :: 0 <= k < |Split(Strip(s), "\n")| ==> !Contains(Split(Strip(s), "\n")[k], t)
  {
    if Contains(Strip(s), t) {
      StripKeepsOut(s, t);
    }
    PiecesWithout(Strip(s), "\n", t);
  }

  /** What no line holds, no line after the first holds. */
  lemma TailWithout(lines: seq<string>, t: string)
    requires |lines| >= 1
    requires forall k :: 0 <= k < |lines| ==> !Contains(lines[k], t)
    ensures forall k :: 0 <= k < |lines[1..]| ==> !Contains(lines[1..][k], t)
  {
    forall k | 0 <= k < |lines[1..]|
      ensures !Contains(lines[1..][k], t)
    {
      assert lines[1..][k] == lines[k + 1];
    }
  }

  /** Blocks without `t` give candidates none of whose fields is `t`. */
  lemma {:induction false} BlocksWithout(blocks: seq<string>, t: string)
    requires forall b :: b in blocks ==> !Contains(b, t)
    ensures forall c :: c in Candidates(blocks) ==> t !in c.cols
    decreases |blocks|
  {
    if |blocks| > 0 {
      BlockWithout(blocks[0], t);
      BlocksWithout(blocks[1..], t);
    }
  }

  /**
   * With no `"Sr. No."` anywhere between the first and second marker, no
   * header is ever captured and reading fails with "Header not found".
   */
  lemma NoSerialNoHeader(content: string)
    requires Contains(content, Marker)
    requires !Contains(Split(content, Marker)[1], SerialColumn)
    ensures ReadData(content) == Failure(MissingHeader)
  {
    PiecesWithout(Split(content, Marker)[1], "\n\n", SerialColumn);
    BlocksWithout(Blocks(content), SerialColumn);
    NoHeaderCandidate(content);
  }

  /** With no candidate naming `"Sr. No."`, reading fails with "Header not found". */
  lemma NoHeaderCandidate(content: string)
    requires Contains(content, Marker)
    requires forall c :: c in Candidates(Blocks(content)) ==> SerialColumn !in c.cols
    ensures ReadData(content) == Failure(MissingHeader)
  {
    var cs := Candidates(Blocks(content));
    forall j | 0 <= j < |cs|
      ensures SerialColumn !in cs[j].cols
    {
      assert cs[j] in cs;
    }
    ReadDataMatchesReference(content);
  }
}
