/** A binary on which the inline walk reads a record the decoder leaves out: one function of sixteen bytes, whose
    index stream names record 65,536 for all of it, over 65,537 mapped records. */
module InlineCap {
  import opened Wrappers
  import opened Bytes
  import opened WordList
  import opened GoBin
  import opened Pclntab
  import opened PclntabWriter
  import opened PcValue
  import opened InlineTree
  import opened InlineWriter

  const TREE_BASE: u64 := 0x10_0000
  const TEXT: u64 := 0x40_0000
  const RECORD_BYTES: nat := 1_048_592

  // ----- the records -----

  function Call(): InlinedCall { InlinedCall(7, 5, 9, 120) }

  function CallBytes(): (s: seq<byte>)
    ensures |s| == 16
  {
    EncodeCall(Call(), [0, 0, 0])
  }

  function RecordBytes(): (s: seq<byte>)
    ensures |s| == RECORD_BYTES
  {
    seq(RECORD_BYTES, i requires 0 <= i => CallBytes()[i % 16])
  }

  function Binary(): GoBinary {
    GoBinary(RecordBytes() + TableBytes(), true, 8,
             [Section("", Data, 0, RECORD_BYTES, TREE_BASE, RECORD_BYTES)], RECORD_BYTES, |TableBytes()|, 0, TEXT)
  }

  // All 65,537 records are mapped, and the same.
  lemma Mapped(k: nat)
    requires k <= 65_536
    ensures CallAt(Binary(), TREE_BASE, k) == Some(Call())
  {
    hide ParseCall, TableBytes, CallBytes, RecordBytes;
    var bin, a := Binary(), TREE_BASE + k * 16;
    var s := bin.sections[0];
    assert s.ContainsAddr(a) && SectionForAddr(bin.sections, a) == Some(s) && s.FileOffsetOf(a) == Some(k * 16);
    RecordSlice(k);
    assert bin.bytes[k * 16..k * 16 + 16] == RecordBytes()[k * 16..k * 16 + 16];
    CallBack();
  }

  lemma RecordSlice(k: nat)
    requires k <= 65_536
    ensures RecordBytes()[k * 16..k * 16 + 16] == CallBytes()
  {
    hide CallBytes;
  }

  lemma CallBack()
    ensures ParseCall(CallBytes()) == Call()
  {
    CallRoundTrip(Call(), [0, 0, 0]);
  }

  // ----- the pclntab -----

  // One run covers the function; nothing is lost of it.
  lemma OneRun(v: i64)
    ensures Climbing([State(v, 16)], 0)
    ensures forall off: u32 :: off < 16 ==> RunReached([State(v, 16)], 0, off)
  {
    assert [State(v, 16)][1..] == [];
  }

  function StreamBytes(v: i64): seq<byte> {
    OneRun(v);
    EncodeRuns([State(v, 16)], -1, 0) + [0]
  }

  lemma StreamLengths()
    ensures |StreamBytes(65_536)| == 5 && |StreamBytes(0)| == 3 && |StreamBytes(42)| == 3
  {
    hide StreamBytes, Varint.Encode, Varint.UnZigZag;
    OneRecord(65_536);
    OneRecord(0);
    OneRecord(42);
    FirstDeltas();
    VarintLengths();
  }

  lemma FirstDeltas()
    ensures Varint.UnZigZag(AsI64(65_537)) == 131_074 && Varint.UnZigZag(AsI64(1)) == 2
    ensures Varint.UnZigZag(AsI64(43)) == 86
  {
  }

  lemma VarintLengths()
    ensures |Varint.Encode(131_074)| == 3 && |Varint.Encode(16)| == |Varint.Encode(2)| == |Varint.Encode(86)| == 1
  {
    assert |Varint.Encode(8)| == 1 && |Varint.Encode(1_024)| == 2;
  }

  lemma OneRecord(v: i64)
    ensures StreamBytes(v) == Varint.Encode(Varint.UnZigZag(AsI64(v + 1))) + Varint.Encode(16) + [0]
  {
    hide Varint.Encode, Varint.UnZigZag, AsI64;
    OneRun(v);
    var r := [State(v, 16)];
    assert r[1..] == [] && EncodeRuns(r, -1, 0) == EncodeRecord(r[0], -1, 0) + [];
    assert v - (-1) == v + 1;
  }

  const NAME: seq<byte> := [109, 97, 105, 110]
  const FILE: seq<byte> := [109, 46, 103, 111]

  // Where the parts lie: behind the header of 72 bytes, one name, one file word, one file name and three streams.
  function ExampleHeader(): Header {
    Header(0xffff_fff1, 1, 8, 1, 1, TEXT, Tables(72, 77, 81, 86, 97))
  }

  function Main(): FuncDesc {
    FuncDesc(TEXT, 12, 0, 0, 0, 0, 5, 8, 3, 0, NAME, [State(0, 16)], [State(42, 16)], Some(FILE))
  }

  function MainTail(): Tail { Tail(42, 0, 0, 0, [0, 0, 0], [0, 0, 0, 0]) }

  // The table without its bytes.
  function Blank(): Table { TableOf([], ExampleHeader(), true, TEXT) }

  function Example(): Table { TableOf(TableBytes(), ExampleHeader(), true, TEXT).(gofunc := Some(TREE_BASE)) }

  lemma MainFits()
    ensures PcFits(Blank(), TEXT) && PcFits(Blank(), TEXT + 16)
  {
    Pow256Values();
  }

  // The function table, its sentinel and the record.
  function TableBack(): seq<byte> {
    MainFits();
    EncodeEntry(Blank(), Main()) + (PcBytes(Blank(), TEXT + 16)
      + (EncodeFunc(Blank(), Main()) + EncodeTail(MainTail(), true)))
  }

  function TableBytes(): seq<byte> {
    EncodeHeader(ExampleHeader(), true) + ((NAME + [0]) + (ToLe(0, 4) + ((FILE + [0])
      + (StreamBytes(65_536) + (StreamBytes(0) + (StreamBytes(42) + TableBack()))))))
  }

  // Every part lies where the header and the record say.
  lemma Parts()
    ensures var data := TableBytes();
      && MatchesAt(data, 0, EncodeHeader(ExampleHeader(), true))
      && MatchesAt(data, 72, NAME + [0]) && MatchesAt(data, 77, ToLe(0, 4)) && MatchesAt(data, 81, FILE + [0])
      && MatchesAt(data, 86, StreamBytes(65_536)) && MatchesAt(data, 91, StreamBytes(0))
      && MatchesAt(data, 94, StreamBytes(42)) && MatchesAt(data, 97, TableBack())
  {
    hide EncodeHeader, StreamBytes, TableBack, MatchesAt, ToLe;
    StreamLengths();
    HeaderLength();
    var data := TableBytes();
    var r7 := TableBack();
    var r6 := StreamBytes(42) + r7;
    var r5 := StreamBytes(0) + r6;
    var r4 := StreamBytes(65_536) + r5;
    var r3 := (FILE + [0]) + r4;
    var r2 := ToLe(0, 4) + r3;
    var r1 := (NAME + [0]) + r2;
    Whole(data);
    HeldPair(data, 0, EncodeHeader(ExampleHeader(), true), r1);
    HeldPair(data, 72, NAME + [0], r2);
    HeldPair(data, 77, ToLe(0, 4), r3);
    HeldPair(data, 81, FILE + [0], r4);
    HeldPair(data, 86, StreamBytes(65_536), r5);
    HeldPair(data, 91, StreamBytes(0), r6);
    HeldPair(data, 94, StreamBytes(42), r7);
  }

  lemma BackParts()
    ensures var data := TableBytes();
      && PcFits(Blank(), TEXT) && PcFits(Blank(), TEXT + 16)
      && MatchesAt(data, 97, EncodeEntry(Blank(), Main())) && MatchesAt(data, 105, PcBytes(Blank(), TEXT + 16))
      && MatchesAt(data, 109, EncodeFunc(Blank(), Main()) + EncodeTail(MainTail(), true))
  {
    hide TableBytes, EncodeTail, EncodeFunc, MatchesAt, ToWord;
    MainFits();
    Parts();
    var func := EncodeFunc(Blank(), Main()) + EncodeTail(MainTail(), true);
    HeldPair(TableBytes(), 97, EncodeEntry(Blank(), Main()), PcBytes(Blank(), TEXT + 16) + func);
    HeldPair(TableBytes(), 105, PcBytes(Blank(), TEXT + 16), func);
  }

  lemma Whole(data: seq<byte>)
    ensures MatchesAt(data, 0, data)
  {
  }

  lemma HeaderLength()
    ensures |EncodeHeader(ExampleHeader(), true)| == 72
  {
  }

  lemma HeaderFits()
    ensures ValidHeader(ExampleHeader())
  {
    hide Pow256;
    Pow256Values();
  }

  lemma HeaderIsHeld()
    ensures HeaderHeld(TableBytes(), 0, ExampleHeader(), true) && |TableBytes()| > 97
  {
    hide TableBytes, EncodeHeader, MatchesAt, TableBack, StreamBytes, ValidHeader, PcBytes, PcFits, Pow256, EncodeFunc,
      EncodeTail, EncodeEntry;
    HeaderFits();
    Parts();
    BackParts();
    HeldInside(TableBytes(), 109, EncodeFunc(Blank(), Main()) + EncodeTail(MainTail(), true));
  }

  lemma StreamsAreHeld()
    ensures StreamHeld(Example(), 0, [State(65_536, 16)])
    ensures StreamHeld(Example(), 5, [State(0, 16)]) && StreamHeld(Example(), 8, [State(42, 16)])
  {
    hide TableBytes, MatchesAt, EncodeRuns;
    Parts();
    OneRun(65_536);
    OneRun(0);
    OneRun(42);
  }

  lemma FileIsHeld()
    ensures FileHeld(Example(), 0, 0, Some(FILE)) && StringHeld(Example().data, 72, NAME)
  {
    hide TableBytes, MatchesAt, ToLe, StreamBytes, EncodeHeader, TableBack;
    Parts();
    var raw: u32 := 0;
    assert ToWord(raw, 4, true) == ToLe(0, 4);
    assert MatchesAt(Example().data, 77, ToWord(raw, 4, true));
  }

  lemma RecordIsHeld()
    ensures EntryHeld(Example(), 0, Main()) && RecordHeld(Example(), 109, Main(), MainTail())
    ensures PcFits(Example(), TEXT + 16) && MatchesAt(Example().data, 105, PcBytes(Example(), TEXT + 16))
  {
    hide TableBytes, MatchesAt, EncodeTail, EncodeWords, ToWord, StreamHeld, FileHeld, StringHeld, Pow256;
    Pow256Values();
    BackParts();
    StreamsAreHeld();
    FileIsHeld();
    assert EncodeFunc(Example(), Main()) == EncodeFunc(Blank(), Main());
    HeldPair(TableBytes(), 109, EncodeFunc(Blank(), Main()), EncodeTail(MainTail(), true));
  }

  // The example is a table as PclntabWriter describes them: the header parses and everything lies where it says.
  lemma ExampleHeld()
    ensures Parse(TableBytes(), true, TEXT) == Ok(Example().(gofunc := None))
    ensures FunctabHeld(Example(), [Main()], TEXT + 16)
  {
    hide TableBytes, MatchesAt, EntryHeld, Parse, RecordHeld, HeaderHeld, PcFits, PcBytes;
    HeaderIsHeld();
    HeaderRoundTrip(TableBytes(), ExampleHeader(), true, TEXT);
    RecordIsHeld();
    ShortTable();
  }

  lemma ShortTable()
    ensures |TableBytes()| < U64
  {
    hide EncodeHeader, StreamBytes, EncodeEntry, PcBytes, EncodeFunc, EncodeTail;
    HeaderLength();
    StreamLengths();
    BackLength();
  }

  lemma BackLength()
    ensures |TableBack()| < 0x1000
  {
    hide EncodeWords, ToWord;
    MainFits();
  }

  // Lookup answers its function as written.
  lemma ExampleAnswers(pc: u64)
    requires TEXT <= pc < TEXT + 16
    ensures FunctionFor(Example(), pc) == Some(Function(TEXT, NAME, Some(FILE), Some(42)))
  {
    hide Example, FunctabHeld, FunctionFor, Parse;
    hide Main, EndOf, Described;
    ExampleHeld();
    MainIs();
    LookupRoundTrip(Example(), [Main()], TEXT + 16, pc);
    var k: nat := 0;
    assert [Main()][k].entry <= pc < EndOf([Main()], TEXT + 16, k);
  }

  lemma MainIs()
    ensures Main().entry == TEXT && Main().files != [] && Main().lines != []
    ensures Described(Main()) == Function(TEXT, NAME, Some(FILE), Some(42))
    ensures EndOf([Main()], TEXT + 16, 0) == TEXT + 16
  {
  }

  // The decoder's whole result for the function: 65,536 records.
  function Records65536(): (v: seq<InlinedCall>)
    ensures |v| == 65_536 && forall k :: 0 <= k < 65_536 ==> v[k] == Call()
  {
    seq(65_536, _ => Call())
  }

  // Every condition of LookupStaysInTree holds, every offset is indexed past the cap, and so the first record
  // the walk reads is not in the decoded tree.
  lemma CapLeavesOneOut() returns (pc: u64, s: Step)
    ensures var bin := Binary();
      Parse(bin.bytes[bin.pclntabOffset..bin.pclntabOffset + bin.pclntabSize], bin.littleEndian, bin.textAddr)
        == Ok(Example().(gofunc := None))
    ensures FullyDecoded(Binary(), Example(), 0, Records65536())
    ensures IndexedPastCap(Binary(), Example(), RecordOf(Example(), 0).value)
    ensures Spans(Example(), 0, pc) && s in StepsFor(Binary(), Example(), 0, pc)
    ensures s.index == 65_536 == |Records65536()| && !FromTree(Records65536(), s)
  {
    hide Parse, Example, TableBytes, FullyDecoded, IndexedPastCap, Spans, StepsFor, Records65536, FromTree, RecordOf,
      FunctabHeld, RecordHeld, StreamHeld;
    ExampleHeld();
    assert Binary().bytes[RECORD_BYTES..RECORD_BYTES + |TableBytes()|] == TableBytes();
    ExampleDecoded();
    pc, s := StepPastCap(Binary(), Example(), 0, Records65536());
  }

  lemma TreeIs()
    ensures TreeOf(Example(), 109) == Some(Tree(TREE_BASE, 0))
    ensures forall off: u32 :: off < 16 ==> ValueAt(Pctab(Example()), 0, off) == 65_536
    ensures TreeLength(Example(), Tree(TREE_BASE, 0), 16) == 65_536
  {
    hide EntryHeld, RecordHeld, StreamHeld, TableBytes, TreeOf, ValueAt, Pctab, MaxValue, RunReached, MatchesAt;
    RecordIsHeld();
    StreamsAreHeld();
    TreeReads(Example(), 109, Main(), MainTail());
    OneRun(65_536);
    forall off: u32 | off < 16 ensures ValueAt(Pctab(Example()), 0, off) == 65_536 {
      RunReads(Example(), 0, [State(65_536, 16)], 0, off);
    }
    ValueAtMostMax(Pctab(Example()), 0, 0, PcLimit(16));
  }

  lemma FunctionIs()
    ensures var p := Example();
      && FunctabAddr(p, 0).Some? && FunctabAddr(p, 1).Some?
      && RecordOf(p, 0).Some? && RecordOf(p, 0).value.funcOff == 12 && RecordOf(p, 0).value.size == 16
  {
    hide FunctabHeld, TableBytes, RecordOf, FunctabAddr, Parse;
    ExampleHeld();
    EntryReads(Example(), [Main()], TEXT + 16, 0);
    SentinelReads(Example(), [Main()], TEXT + 16);
    FunctionReads(Example(), [Main()], TEXT + 16, 0);
  }

  lemma ExampleDecoded()
    ensures FullyDecoded(Binary(), Example(), 0, Records65536())
    ensures IndexedPastCap(Binary(), Example(), RecordOf(Example(), 0).value)
  {
    hide FunctabAddr, RecordOf, TreeOf, TableBytes, ValueAt, CallAt, Pctab, TreeLength;
    FunctionIs();
    TreeIs();
    forall k: nat | k <= 65_536 ensures CallAt(Binary(), TREE_BASE, k) == Some(Call()) {
      Mapped(k);
    }
    var off: u32 := 0;
    assert off < RecordOf(Example(), 0).value.size && ValueAt(Pctab(Example()), 0, off) == 65_536;
  }
}
