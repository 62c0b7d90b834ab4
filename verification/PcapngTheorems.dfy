/** What `repair` promises about every file it accepts. */
module PcapngTheorems {
  import opened Results
  import opened Bytes
  import opened Seqs
  import opened Pcapng
  import opened PcapngRepair

  // ---------------------------------------------------------------- the inserted option

  /** Where the resolution option goes in: at the end marker, or at the end of the area. */
  function InsertionPoint(opts: seq<Opt>, area: bytes): nat {
    var k := FirstWith(opts, OPT_ENDOFOPT);
    if k < |opts| then opts[k].start else |area|
  }

  lemma TsresolFields(e: Endian)
    ensures |TsresolOption(e)| == 8 && |EndOfOptions(e)| == 4
    ensures Value(e, TsresolOption(e)[0..2]) == OPT_IF_TSRESOL
    ensures Value(e, TsresolOption(e)[2..4]) == 1
    ensures Value(e, EndOfOptions(e)[0..2]) == OPT_ENDOFOPT
    ensures Value(e, EndOfOptions(e)[2..4]) == 0
  {
    hide Value, Put;
    Capacities();
    ValueOfPut(e, 2, OPT_IF_TSRESOL);
    ValueOfPut(e, 2, 1);
    ValueOfPut(e, 2, 0);
    assert TsresolOption(e)[0..2] == Put(e, 2, OPT_IF_TSRESOL);
    assert TsresolOption(e)[2..4] == Put(e, 2, 1);
    assert EndOfOptions(e)[0..2] == Put(e, 2, OPT_ENDOFOPT);
    assert EndOfOptions(e)[2..4] == Put(e, 2, 0);
  }

  /** The option list once the resolution has gone in: the options before the end marker as they
      were, the resolution, and an end marker. */
  function WithTsresol(opts: seq<Opt>, at: nat): seq<Opt> {
    var k := FirstWith(opts, OPT_ENDOFOPT);
    opts[..k] + [Opt(OPT_IF_TSRESOL, [9], at, at + 8)]
    + [if k < |opts| then opts[k].(start := at + 8, end := opts[k].end + 8) else Opt(OPT_ENDOFOPT, [], at + 8, at + 12)]
  }

  /** The area with the option spliced in at `at`; a missing end marker is supplied. */
  function Spliced(e: Endian, area: bytes, at: nat): bytes
    requires at <= |area|
  {
    area[..at] + TsresolOption(e) + (if at == |area| then EndOfOptions(e) else area[at..])
  }

  lemma SplicedReadsTsresol(e: Endian, area: bytes, at: nat)
    requires at <= |area|
    ensures |Spliced(e, area, at)| > at + 8
    ensures OptionHere(e, Spliced(e, area, at), at) == Ok(Opt(OPT_IF_TSRESOL, [9], at, at + 8))
  {
    hide Value, Put;
    TsresolFields(e);
    var longer, front, tail := Spliced(e, area, at), area[..at], if at == |area| then EndOfOptions(e) else area[at..];
    assert longer[at..at + 2] == TsresolOption(e)[0..2] by { MiddleSlice(front, TsresolOption(e), tail, 0, 2); }
    assert longer[at + 2..at + 4] == TsresolOption(e)[2..4] by { MiddleSlice(front, TsresolOption(e), tail, 2, 4); }
    assert longer[at + 4..at + 5] == [9] by { MiddleSlice(front, TsresolOption(e), tail, 4, 5); }
  }

  lemma SplicedReadsEnd(e: Endian, area: bytes)
    ensures OptionHere(e, Spliced(e, area, |area|), |area| + 8) == Ok(Opt(OPT_ENDOFOPT, [], |area| + 8, |area| + 12))
  {
    hide Value, Put;
    TsresolFields(e);
    var longer, at, front, tail := Spliced(e, area, |area|), |area|, area[..|area|], EndOfOptions(e);
    assert longer[at + 8..at + 10] == tail[0..2] by { LastSlice(front, TsresolOption(e), tail, 0, 2); }
    assert longer[at + 10..at + 12] == tail[2..4] by { LastSlice(front, TsresolOption(e), tail, 2, 4); }
    assert longer[at + 12..at + 12] == [];
  }

  lemma SplicedShiftsOption(e: Endian, area: bytes, at: nat)
    requires at < |area| && OptionHere(e, area, at).Ok?
    ensures var opt := OptionHere(e, area, at).value;
            OptionHere(e, Spliced(e, area, at), at + 8) == Ok(opt.(start := at + 8, end := opt.end + 8))
  {
    hide Value, Put, TsresolOption;
    TsresolFields(e);
    var longer, front, tail, len := Spliced(e, area, at), area[..at], area[at..], Field(e, area, at + 2, 2);
    assert longer[at + 8..at + 10] == area[at..at + 2] by {
      LastSlice(front, TsresolOption(e), tail, 0, 2);
      SliceOfSlice(area, at, |area|, 0, 2);
    }
    assert longer[at + 10..at + 12] == area[at + 2..at + 4] by {
      LastSlice(front, TsresolOption(e), tail, 2, 4);
      SliceOfSlice(area, at, |area|, 2, 4);
    }
    assert longer[at + 12..at + 12 + len] == area[at + 4..at + 4 + len] by {
      LastSlice(front, TsresolOption(e), tail, 4, 4 + len);
      SliceOfSlice(area, at, |area|, 4, 4 + len);
    }
  }

  lemma SplicedKeepsOption(e: Endian, area: bytes, pos: nat, at: nat)
    requires OptionHere(e, area, pos).Ok? && OptionHere(e, area, pos).value.end <= at <= |area|
    ensures OptionHere(e, Spliced(e, area, at), pos) == OptionHere(e, area, pos)
  {
    hide Value, Put, TsresolOption, EndOfOptions;
    var longer, front, tail := Spliced(e, area, at), area[..at], if at == |area| then EndOfOptions(e) else area[at..];
    forall i, j | 0 <= i <= j <= at
      ensures longer[i..j] == area[i..j]
    {
      FirstSlice(front, TsresolOption(e), tail, i, j);
      SliceOfSlice(area, 0, at, i, j);
    }
  }

  lemma SplicedAtPoint(e: Endian, area: bytes, at: nat)
    requires || at == |area|
             || (at < |area| && OptionHere(e, area, at).Ok? && OptionHere(e, area, at).value.code == OPT_ENDOFOPT)
    ensures ParseOptions(e, area, at).Ok?
    ensures ParseOptions(e, Spliced(e, area, at), at) == Ok(WithTsresol(ParseOptions(e, area, at).value, at))
  {
    hide OptionHere, ParseOptions, Spliced;
    SplicedReadsTsresol(e, area, at);
    var longer := Spliced(e, area, at);
    if at == |area| {
      SplicedReadsEnd(e, area);
      NoOptions(e, area);
    } else {
      SplicedShiftsOption(e, area, at);
      OnlyEnd(e, area, at);
    }
    var added, last := OptionHere(e, longer, at).value, OptionHere(e, longer, at + 8).value;
    OnlyEnd(e, longer, at + 8);
    OptionThen(e, longer, at);
    var opts := ParseOptions(e, area, at).value;
    assert WithTsresol(opts, at) == [added] + [last];
  }

  lemma NoOptions(e: Endian, area: bytes)
    ensures ParseOptions(e, area, |area|) == Ok([])
  {
  }

  lemma OnlyEnd(e: Endian, area: bytes, at: nat)
    requires at < |area| && OptionHere(e, area, at).Ok? && OptionHere(e, area, at).value.code == OPT_ENDOFOPT
    ensures ParseOptions(e, area, at) == Ok([OptionHere(e, area, at).value])
  {
    hide OptionHere;
  }

  lemma OptionThen(e: Endian, area: bytes, at: nat)
    requires at < |area| && OptionHere(e, area, at).Ok?
    requires var opt := OptionHere(e, area, at).value; opt.code != OPT_ENDOFOPT && ParseOptions(e, area, opt.end).Ok?
    ensures var opt := OptionHere(e, area, at).value;
            ParseOptions(e, area, at) == Ok([opt] + ParseOptions(e, area, opt.end).value)
  {
    hide OptionHere;
  }

  /** Reading the spliced area gives the old options with the resolution among them. */
  lemma {:induction false} SplicedOptions(e: Endian, area: bytes, pos: nat, at: nat)
    requires ParseOptions(e, area, pos).Ok? && pos <= |area|
    requires at == InsertionPoint(ParseOptions(e, area, pos).value, area)
    ensures pos <= at <= |area|
    ensures ParseOptions(e, Spliced(e, area, at), pos) == Ok(WithTsresol(ParseOptions(e, area, pos).value, at))
    decreases |area| - pos
  {
    hide Spliced, OptionHere, WithTsresol, InsertionPoint;
    var opts := ParseOptions(e, area, pos).value;
    if pos == |area| || opts[0].code == OPT_ENDOFOPT {
      InsertionPointHere(opts, area);
      SplicedAtPoint(e, area, pos);
    } else {
      assert opts[1..] == ParseOptions(e, area, opts[0].end).value;
      InsertionPointCons(opts, area);
      SplicedOptions(e, area, opts[0].end, at);
      SplicedKeepsOption(e, area, pos, at);
      WithTsresolCons(opts, at);
    }
  }

  lemma InsertionPointHere(opts: seq<Opt>, area: bytes)
    requires opts == [] || opts[0].code == OPT_ENDOFOPT
    ensures InsertionPoint(opts, area) == if opts == [] then |area| else opts[0].start
  {
  }

  lemma InsertionPointCons(opts: seq<Opt>, area: bytes)
    requires opts != [] && opts[0].code != OPT_ENDOFOPT
    ensures InsertionPoint(opts, area) == InsertionPoint(opts[1..], area)
  {
  }

  lemma WithTsresolCons(opts: seq<Opt>, at: nat)
    requires opts != [] && opts[0].code != OPT_ENDOFOPT
    ensures WithTsresol(opts, at) == [opts[0]] + WithTsresol(opts[1..], at)
  {
  }

  /** The first option with a code, in a list put together from two. */
  lemma FirstWithConcat(a: seq<Opt>, b: seq<Opt>, code: nat)
    ensures FirstWith(a + b, code) == if Has(a, code) then FirstWith(a, code) else |a| + FirstWith(b, code)
  {
    hide FirstWith;
    var k := if Has(a, code) then FirstWith(a, code) else |a| + FirstWith(b, code);
    assert k < |a + b| ==> (a + b)[k].code == code;
    assert forall j :: 0 <= j < k ==> (a + b)[j].code != code;
  }

  /** Only the last option can be the end marker. */
  lemma {:induction false} EndMarkerIsLast(e: Endian, area: bytes, pos: nat)
    requires ParseOptions(e, area, pos).Ok?
    ensures var opts := ParseOptions(e, area, pos).value;
            forall j :: 0 <= j < |opts| - 1 ==> opts[j].code != OPT_ENDOFOPT
    decreases |area| - pos
  {
    hide OptionHere;
    if pos < |area| {
      var opt := OptionHere(e, area, pos).value;
      if opt.code != OPT_ENDOFOPT {
        EndMarkerIsLast(e, area, opt.end);
      }
    }
  }

  /** What inserting means to a reader: the resolution is now there and says nanoseconds, and every
      other option (but for the end marker) reads as before. */
  lemma InsertedMeaning(opts: seq<Opt>, at: nat, code: nat)
    requires !Has(opts, OPT_IF_TSRESOL)
    requires forall j :: 0 <= j < |opts| - 1 ==> opts[j].code != OPT_ENDOFOPT
    ensures Has(WithTsresol(opts, at), OPT_IF_TSRESOL)
    ensures FirstValue(WithTsresol(opts, at), OPT_IF_TSRESOL) == [9]
    ensures code !in {OPT_IF_TSRESOL, OPT_ENDOFOPT} ==> Has(WithTsresol(opts, at), code) == Has(opts, code)
    ensures code != OPT_IF_TSRESOL ==> FirstValue(WithTsresol(opts, at), code) == FirstValue(opts, code)
  {
    hide FirstWith, WithTsresol;
    var k := FirstWith(opts, OPT_ENDOFOPT);
    var front, back := opts[..k], opts[k..];
    assert opts == front + back;
    WithTsresolConcat(opts, at);
    InsertedInShortList(back, at, code);
    FirstWithConcat(front, back, OPT_IF_TSRESOL);
    FirstWithConcat(front, WithTsresol(back, at), OPT_IF_TSRESOL);
    FirstWithConcat(front, back, code);
    FirstWithConcat(front, WithTsresol(back, at), code);
  }

  lemma WithTsresolConcat(opts: seq<Opt>, at: nat)
    ensures var k := FirstWith(opts, OPT_ENDOFOPT); WithTsresol(opts, at) == opts[..k] + WithTsresol(opts[k..], at)
  {
    hide FirstWith;
    var k := FirstWith(opts, OPT_ENDOFOPT);
    assert FirstWith(opts[k..], OPT_ENDOFOPT) == 0;
  }

  lemma InsertedInShortList(back: seq<Opt>, at: nat, code: nat)
    requires |back| <= 1 && (back != [] ==> back[0].code == OPT_ENDOFOPT)
    ensures |WithTsresol(back, at)| == 2
    ensures FirstWith(WithTsresol(back, at), OPT_IF_TSRESOL) == 0 && WithTsresol(back, at)[0].value == [9]
    ensures code != OPT_IF_TSRESOL ==> FirstValue(WithTsresol(back, at), code) == FirstValue(back, code)
    ensures code !in {OPT_IF_TSRESOL, OPT_ENDOFOPT} ==> FirstWith(WithTsresol(back, at), code) == 2 && !Has(back, code)
  {
    var added := WithTsresol(back, at);
    assert added[1..] == [added[1]];
  }

  // ---------------------------------------------------------------- one interface block

  lemma MadeBlock(e: Endian, kind: nat, body: bytes)
    requires kind < CAPACITY32 && |body| + 12 < CAPACITY32 && |body| % 4 == 0
    ensures Framed(e, MakeBlock(e, kind, body).raw)
    ensures TypeOf(MakeBlock(e, kind, body)) == kind && BodyOf(MakeBlock(e, kind, body)) == body
  {
    hide Value, Put;
    Capacities();
    ValueOfPut(e, 4, kind);
    ValueOfPut(e, 4, |body| + 12);
    var raw := MakeBlock(e, kind, body).raw;
    assert raw[0..4] == Put(e, 4, kind);
    assert raw[4..8] == Put(e, 4, |body| + 12);
    assert raw[|raw| - 4..|raw|] == Put(e, 4, |body| + 12);
    assert raw[8..|raw| - 4] == body;
  }

  /** The interface block `fixed` is `b` with the resolution among its options: 8 bytes longer, or
      12 when an end marker had to be supplied; every byte in front of the insertion and behind it is
      kept, padding and what follows an end marker included. */
  predicate IdbExtended(b: Block, fixed: Block) {
    && |b.raw| >= 20 && |fixed.raw| >= 20
    && ParseOptions(b.endian, OptionArea(b), 0).Ok?
    && var opts := ParseOptions(b.endian, OptionArea(b), 0).value;
    && !Has(opts, OPT_IF_TSRESOL)
    && var at := InsertionPoint(opts, OptionArea(b));
    && BodyOf(fixed)[..8] == BodyOf(b)[..8]
    && at <= |OptionArea(b)| && OptionArea(fixed) == Spliced(b.endian, OptionArea(b), at)
    && ParseOptions(fixed.endian, OptionArea(fixed), 0) == Ok(WithTsresol(opts, at))
    && |fixed.raw| == |b.raw| + if Has(opts, OPT_ENDOFOPT) then 8 else 12
  }

  lemma InsertedBlock(b: Block, opts: seq<Opt>)
    requires Framed(b.endian, b.raw) && TypeOf(b) == IDB_TYPE
    requires ParseOptions(b.endian, OptionArea(b), 0) == Ok(opts) && !Has(opts, OPT_IF_TSRESOL)
    requires InsertInto(b, opts).Ok?
    ensures var fixed := InsertInto(b, opts).value;
            && fixed.endian == b.endian && Framed(fixed.endian, fixed.raw) && TypeOf(fixed) == IDB_TYPE
            && IdbExtended(b, fixed)
  {
    hide Value, Put, ParseOptions, FirstWith;
    var area := OptionArea(b);
    OptionsInArea(b.endian, area, 0);
    SplicedOptions(b.endian, area, 0, InsertionPoint(opts, area));
    InsertIsSplice(b.endian, area, opts);
    var body := BodyOf(b)[..8] + InsertTsresol(b.endian, area, opts);
    InsertedLength(b.endian, area, opts);
    MadeBlock(b.endian, IDB_TYPE, body);
    assert body[8..] == InsertTsresol(b.endian, area, opts);
    assert body[..8] == BodyOf(b)[..8];
  }

  lemma InsertedLength(e: Endian, area: bytes, opts: seq<Opt>)
    requires forall o :: o in opts ==> o.start <= |area|
    ensures |InsertTsresol(e, area, opts)| == |area| + if Has(opts, OPT_ENDOFOPT) then 8 else 12
  {
    TsresolFields(e);
  }

  lemma InsertIsSplice(e: Endian, area: bytes, opts: seq<Opt>)
    requires forall o :: o in opts ==> o.start < |area|
    ensures InsertTsresol(e, area, opts) == Spliced(e, area, InsertionPoint(opts, area))
  {
    assert area[..|area|] == area;
  }

  /** None of these lines reports an insertion. */
  predicate NoInsertion(notes: seq<Note>) {
    forall n :: n in notes ==> !n.Inserted?
  }

  /** Repairing an interface block: it stays an interface block of its section, an eligible one shows
      a resolution afterwards, and a second repair leaves it as it is and reports no insertion. */
  lemma RepairedIdb(b: Block, force: bool, sipnab: bool, idb: nat)
    requires Framed(b.endian, b.raw) && TypeOf(b) == IDB_TYPE
    requires RepairIdb(b, force, sipnab).Ok?
    ensures var fixed := RepairIdb(b, force, sipnab).value;
            && fixed.endian == b.endian && Framed(fixed.endian, fixed.raw) && TypeOf(fixed) == IDB_TYPE
            && (fixed == b || IdbExtended(b, fixed))
            && RepairIdb(fixed, force, sipnab) == Ok(fixed)
            && NoInsertion(IdbNotes(fixed, force, sipnab, idb))
            && (NoInsertion(IdbNotes(b, force, sipnab, idb)) <==> fixed == b)
            && ShowsResolution(fixed, force, sipnab)
  {
    hide Value, ParseOptions, FirstValue, Contains, FirstWith, InsertTsresol, WithTsresol;
    var opts := ParseOptions(b.endian, OptionArea(b), 0).value;
    var fixed := RepairIdb(b, force, sipnab).value;
    if Eligible(opts, force, sipnab) && !Has(opts, OPT_IF_TSRESOL) {
      InsertedBlock(b, opts);
      EndMarkerIsLast(b.endian, OptionArea(b), 0);
      var at := InsertionPoint(opts, OptionArea(b));
      InsertedMeaning(opts, at, OPT_IF_DESCRIPTION);
      assert ParseOptions(fixed.endian, OptionArea(fixed), 0).value == WithTsresol(opts, at);
      assert Eligible(WithTsresol(opts, at), force, sipnab);
      assert Inserted(idb) in IdbNotes(b, force, sipnab, idb);
    }
  }

  /** An interface this section is allowed to repair states its time resolution. */
  predicate ShowsResolution(b: Block, force: bool, sipnab: bool)
    requires |b.raw| >= 12
  {
    && ParseOptions(b.endian, OptionArea(b), 0).Ok?
    && var opts := ParseOptions(b.endian, OptionArea(b), 0).value;
    Eligible(opts, force, sipnab) ==> Has(opts, OPT_IF_TSRESOL)
  }

  // ---------------------------------------------------------------- section headers

  lemma GrownHeader(shb: Block, growth: nat, current: Result<Endian>)
    requires WellPlaced(shb, current) && IsShb(shb.raw) && WrittenBySipnab(shb).Ok?
    requires Grown(shb, growth).Ok?
    ensures var grown := Grown(shb, growth).value;
            && grown.endian == shb.endian && |grown.raw| == |shb.raw|
            && grown.raw[..16] == shb.raw[..16] && grown.raw[24..] == shb.raw[24..]
            && WellPlaced(grown, current) && IsShb(grown.raw)
            && WrittenBySipnab(grown) == WrittenBySipnab(shb)
            && DeclaredLength(grown) ==
               DeclaredLength(shb) + if DeclaredLength(shb) == UNSPECIFIED_SECTION_LEN then 0 else growth
  {
    hide Value, Put, ParseOptions;
    var grown, length := Grown(shb, growth).value, DeclaredLength(shb) + growth;
    if DeclaredLength(shb) != UNSPECIFIED_SECTION_LEN && growth != 0 {
      Capacities();
      ValueOfPut(shb.endian, 8, length);
      assert grown.raw[16..24] == Put(shb.endian, 8, length);
      SameOutsideLength(shb.raw, grown.raw);
    }
  }

  /** Two section headers that agree outside their length field are framed and read alike. */
  lemma SameOutsideLength(raw: bytes, other: bytes)
    requires |raw| == |other| >= 28 && raw[..16] == other[..16] && raw[24..] == other[24..]
    ensures raw[..4] == other[..4] && raw[4..8] == other[4..8] && raw[8..12] == other[8..12]
    ensures raw[|raw| - 4..|raw|] == other[|raw| - 4..|raw|]
    ensures raw[8..|raw| - 4][16..] == other[8..|raw| - 4][16..]
  {
    assert raw[..4] == raw[..16][..4];
    assert raw[4..8] == raw[..16][4..8];
    assert raw[8..12] == raw[..16][8..12];
    assert raw[|raw| - 4..|raw|] == raw[24..][|raw| - 28..];
    assert raw[8..|raw| - 4][16..] == raw[24..][..|raw| - 28];
    assert other[..4] == other[..16][..4];
    assert other[4..8] == other[..16][4..8];
    assert other[8..12] == other[..16][8..12];
    assert other[|raw| - 4..|raw|] == other[24..][|raw| - 28..];
    assert other[8..|raw| - 4][16..] == other[24..][..|raw| - 28];
  }

  // ---------------------------------------------------------------- sequences of blocks

  /** What a block may look like after the rewrite. */
  predicate Rewritten(b: Block, after: Block) {
    && |b.raw| >= 12 && |after.raw| >= 12
    && after.endian == b.endian && TypeOf(after) == TypeOf(b)
    && (if IsShb(b.raw) then
          && |after.raw| == |b.raw| >= 28
          && after.raw[..16] == b.raw[..16] && after.raw[24..] == b.raw[24..]
        else after == b || (TypeOf(b) == IDB_TYPE && IdbExtended(b, after)))
  }

  /** How many bytes stand before the next section header. */
  function SectionSize(blocks: seq<Block>): nat {
    if blocks == [] || IsShb(blocks[0].raw) then 0 else |blocks[0].raw| + SectionSize(blocks[1..])
  }

  /** A section header's declared length follows the size of its section. */
  predicate LengthFollows(blocks: seq<Block>, after: seq<Block>, i: nat)
    requires i < |blocks| == |after| && |blocks[i].raw| >= 28 && |after[i].raw| >= 28
  {
    var declared, now := DeclaredLength(blocks[i]), DeclaredLength(after[i]);
    if declared == UNSPECIFIED_SECTION_LEN then now == declared
    else now - declared == SectionSize(after[i + 1..]) - SectionSize(blocks[i + 1..])
  }

  /** Every interface that is eligible in its section shows a resolution. */
  predicate AllShowResolution(blocks: seq<Block>, force: bool, sipnab: bool) {
    blocks == [] ||
    var b := blocks[0];
    && |b.raw| >= 12
    && (!IsShb(b.raw) && TypeOf(b) == IDB_TYPE ==> ShowsResolution(b, force, sipnab))
    && AllShowResolution(blocks[1..], force, SipnabAfter(b, sipnab))
  }

  /** What the head block becomes when the rest of its section grows by `growth`. */
  function HeadAfter(b: Block, force: bool, sipnab: bool, growth: nat): (r: Result<Block>)
    requires |b.raw| >= 12
  {
    if IsShb(b.raw) then (if WrittenBySipnab(b).Ok? then Grown(b, growth) else Refused)
    else if TypeOf(b) == IDB_TYPE then RepairIdb(b, force, sipnab)
    else Ok(b)
  }

  function HeadNotes(b: Block, force: bool, sipnab: bool, idbs: nat): seq<Note>
    requires |b.raw| >= 12
  {
    if !IsShb(b.raw) && TypeOf(b) == IDB_TYPE && RepairIdb(b, force, sipnab).Ok? then
      IdbNotes(b, force, sipnab, idbs + 1)
    else []
  }

  lemma RewriteCons(blocks: seq<Block>, force: bool, sipnab: bool, idbs: nat)
    requires blocks != [] && forall b :: b in blocks ==> |b.raw| >= 12
    ensures var b := blocks[0];
            var rest := Rewrite(blocks[1..], force, SipnabAfter(b, sipnab), IdbsAfter(b, idbs));
            Rewrite(blocks, force, sipnab, idbs) ==
            if rest.Refused? || HeadAfter(b, force, sipnab, rest.value.growth).Refused? then Refused
            else
              var after := HeadAfter(b, force, sipnab, rest.value.growth).value;
              Ok(Tail([after] + rest.value.blocks,
                      if IsShb(b.raw) then 0 else |after.raw| - |b.raw| + rest.value.growth,
                      HeadNotes(b, force, sipnab, idbs) + rest.value.notes))
  {
    hide Rewrite, Grown, RepairIdb, IdbNotes, IsShb, WrittenBySipnab, TypeOf, SipnabAfter, IdbsAfter;
    RewriteStep(blocks, force, sipnab, idbs);
    var rest := Rewrite(blocks[1..], force, SipnabAfter(blocks[0], sipnab), IdbsAfter(blocks[0], idbs));
    assert rest.Ok? ==> [] + rest.value.notes == rest.value.notes;
  }

  /** The head block before and after: its kind, place and section flag are kept, and a second
      rewrite leaves it alone. */
  predicate HeadKept(b: Block, after: Block, current: Result<Endian>, force: bool, sipnab: bool, idbs: nat) {
    && Rewritten(b, after) && WellPlaced(after, current) && IsShb(after.raw) == IsShb(b.raw)
    && SipnabAfter(after, sipnab) == SipnabAfter(b, sipnab) && IdbsAfter(after, idbs) == IdbsAfter(b, idbs)
    && HeadAfter(after, force, sipnab, 0) == Ok(after)
    && NoInsertion(HeadNotes(after, force, sipnab, idbs))
    && (!IsShb(b.raw) && TypeOf(b) == IDB_TYPE ==> ShowsResolution(after, force, sipnab))
    && (!IsShb(b.raw) ==> (after == b <==> NoInsertion(HeadNotes(b, force, sipnab, idbs))))
  }

  lemma HeaderKept(b: Block, current: Result<Endian>, force: bool, sipnab: bool, growth: nat, idbs: nat)
    requires WellPlaced(b, current) && IsShb(b.raw) && HeadAfter(b, force, sipnab, growth).Ok?
    ensures HeadKept(b, HeadAfter(b, force, sipnab, growth).value, current, force, sipnab, idbs)
  {
    hide Value, Grown, IdbExtended, WrittenBySipnab, RepairIdb, ShowsResolution, AnnouncedEndian;
    var after := HeadAfter(b, force, sipnab, growth).value;
    GrownHeader(b, growth, current);
    GrownByNothing(after);
    assert after.raw[..4] == after.raw[..16][..4] && b.raw[..4] == b.raw[..16][..4];
    assert after.raw[0..4] == after.raw[..4] && b.raw[0..4] == b.raw[..4];
  }

  lemma InterfaceKept(b: Block, current: Result<Endian>, force: bool, sipnab: bool, growth: nat, idbs: nat)
    requires WellPlaced(b, current) && !IsShb(b.raw) && TypeOf(b) == IDB_TYPE && HeadAfter(b, force, sipnab, growth).Ok?
    ensures HeadKept(b, HeadAfter(b, force, sipnab, growth).value, current, force, sipnab, idbs)
  {
    hide Value, IdbExtended, WrittenBySipnab, RepairIdb, IdbNotes, ShowsResolution, AnnouncedEndian;
    var after := HeadAfter(b, force, sipnab, growth).value;
    RepairedIdb(b, force, sipnab, idbs + 1);
    ShbTypeEitherOrder(after.endian, after.raw);
  }

  lemma HeadRewritten(b: Block, current: Result<Endian>, force: bool, sipnab: bool, growth: nat, idbs: nat)
    requires WellPlaced(b, current) && HeadAfter(b, force, sipnab, growth).Ok?
    ensures HeadKept(b, HeadAfter(b, force, sipnab, growth).value, current, force, sipnab, idbs)
  {
    hide Value, IdbExtended, WrittenBySipnab, RepairIdb, Grown, IdbNotes, ShowsResolution, AnnouncedEndian;
    if IsShb(b.raw) {
      HeaderKept(b, current, force, sipnab, growth, idbs);
    } else if TypeOf(b) == IDB_TYPE {
      InterfaceKept(b, current, force, sipnab, growth, idbs);
    }
  }

  lemma GrownByNothing(shb: Block)
    requires |shb.raw| >= 28
    ensures Grown(shb, 0) == Ok(shb)
  {
  }

  predicate AllHaveHeaders(blocks: seq<Block>) {
    forall b :: b in blocks ==> |b.raw| >= 12
  }

  /** Same blocks in the same order, each rewritten as its kind allows, and a stream again. */
  lemma {:induction false} RewriteShape(
    blocks: seq<Block>, current: Result<Endian>, force: bool, sipnab: bool, idbs: nat)
    requires Chained(blocks, current) && AllHaveHeaders(blocks)
    requires Rewrite(blocks, force, sipnab, idbs).Ok?
    ensures var after := Rewrite(blocks, force, sipnab, idbs).value.blocks;
            && |after| == |blocks| && Chained(after, current) && AllHaveHeaders(after)
            && forall i :: 0 <= i < |blocks| ==> Rewritten(blocks[i], after[i])
  {
    hide Rewrite, Rewritten, HeadAfter, HeadNotes, WellPlaced, SipnabAfter, IdbsAfter, IsShb;
    if blocks == [] {
      RewriteNothing(force, sipnab, idbs);
    } else {
      var b := blocks[0];
      RewriteCons(blocks, force, sipnab, idbs);
      var rest := Rewrite(blocks[1..], force, SipnabAfter(b, sipnab), IdbsAfter(b, idbs)).value;
      RewriteShape(blocks[1..], Ok(b.endian), force, SipnabAfter(b, sipnab), IdbsAfter(b, idbs));
      HeadRewritten(b, current, force, sipnab, rest.growth, idbs);
      var after := Rewrite(blocks, force, sipnab, idbs).value.blocks;
      RewrittenHasHeader(b, after[0]);
      assert after[1..] == rest.blocks;
      assert forall i :: 1 <= i < |blocks| ==> blocks[i] == blocks[1..][i - 1] && after[i] == rest.blocks[i - 1];
    }
  }

  lemma RewriteNothing(force: bool, sipnab: bool, idbs: nat)
    ensures Rewrite([], force, sipnab, idbs) == Ok(Tail([], 0, []))
  {
  }

  lemma RewrittenHasHeader(b: Block, after: Block)
    requires Rewritten(b, after)
    ensures |after.raw| >= 12 && after.endian == b.endian
    ensures IsShb(b.raw) ==> |after.raw| == |b.raw| >= 28
  {
  }

  /** Rewriting what was rewritten changes nothing, inserts nothing and grows nothing. */
  lemma {:induction false} RewriteAgain(
    blocks: seq<Block>, current: Result<Endian>, force: bool, sipnab: bool, idbs: nat)
    requires Chained(blocks, current) && AllHaveHeaders(blocks)
    requires Rewrite(blocks, force, sipnab, idbs).Ok?
    ensures var after := Rewrite(blocks, force, sipnab, idbs).value.blocks;
            && AllHaveHeaders(after)
            && Rewrite(after, force, sipnab, idbs).Ok?
            && Rewrite(after, force, sipnab, idbs).value.blocks == after
            && Rewrite(after, force, sipnab, idbs).value.growth == 0
            && NoInsertion(Rewrite(after, force, sipnab, idbs).value.notes)
            && AllShowResolution(after, force, sipnab)
  {
    hide Rewrite, Rewritten, HeadAfter, HeadNotes, WellPlaced, SipnabAfter, IdbsAfter, IsShb, ShowsResolution, TypeOf;
    RewriteShape(blocks, current, force, sipnab, idbs);
    if blocks == [] {
      RewriteNothing(force, sipnab, idbs);
    } else {
      var b := blocks[0];
      RewriteCons(blocks, force, sipnab, idbs);
      var rest := Rewrite(blocks[1..], force, SipnabAfter(b, sipnab), IdbsAfter(b, idbs)).value;
      RewriteAgain(blocks[1..], Ok(b.endian), force, SipnabAfter(b, sipnab), IdbsAfter(b, idbs));
      HeadRewritten(b, current, force, sipnab, rest.growth, idbs);
      var after := Rewrite(blocks, force, sipnab, idbs).value.blocks;
      RewrittenHasHeader(b, after[0]);
      SameTypeAfter(b, after[0]);
      assert after[1..] == rest.blocks;
      RewriteCons(after, force, sipnab, idbs);
    }
  }

  lemma SameTypeAfter(b: Block, after: Block)
    requires Rewritten(b, after)
    ensures |b.raw| >= 12 && |after.raw| >= 12 && TypeOf(after) == TypeOf(b)
  {
  }

  /** The growth a rewrite reports is the growth of the section in progress, and every declared
      section length moves with the size of its section. */
  lemma {:induction false} RewriteLengths(
    blocks: seq<Block>, current: Result<Endian>, force: bool, sipnab: bool, idbs: nat)
    requires Chained(blocks, current) && AllHaveHeaders(blocks)
    requires Rewrite(blocks, force, sipnab, idbs).Ok?
    ensures var tail := Rewrite(blocks, force, sipnab, idbs).value;
            && |tail.blocks| == |blocks|
            && SectionSize(tail.blocks) == SectionSize(blocks) + tail.growth
            && forall i :: 0 <= i < |blocks| && IsShb(blocks[i].raw) ==>
                 |blocks[i].raw| >= 28 && |tail.blocks[i].raw| >= 28 && LengthFollows(blocks, tail.blocks, i)
  {
    hide Rewrite, Rewritten, HeadAfter, HeadNotes, WellPlaced, SipnabAfter, IdbsAfter, IsShb, LengthFollows;
    if blocks == [] {
      RewriteNothing(force, sipnab, idbs);
    } else {
      var b := blocks[0];
      RewriteCons(blocks, force, sipnab, idbs);
      var rest := Rewrite(blocks[1..], force, SipnabAfter(b, sipnab), IdbsAfter(b, idbs)).value;
      RewriteLengths(blocks[1..], Ok(b.endian), force, SipnabAfter(b, sipnab), IdbsAfter(b, idbs));
      HeadRewritten(b, current, force, sipnab, rest.growth, idbs);
      var after := Rewrite(blocks, force, sipnab, idbs).value.blocks;
      RewrittenHasHeader(b, after[0]);
      assert after[1..] == rest.blocks;
      if IsShb(b.raw) {
        HeaderFollows(blocks, after, current, force, sipnab, rest.growth);
      }
      forall i | 1 <= i < |blocks| && IsShb(blocks[i].raw)
        ensures |blocks[i].raw| >= 28 && |after[i].raw| >= 28 && LengthFollows(blocks, after, i)
      {
        assert blocks[i] == blocks[1..][i - 1] && after[i] == rest.blocks[i - 1];
        FollowsInTail(blocks, after, i);
      }
    }
  }

  lemma HeaderFollows(
    blocks: seq<Block>, after: seq<Block>, current: Result<Endian>, force: bool, sipnab: bool, growth: nat)
    requires |blocks| == |after| >= 1 && WellPlaced(blocks[0], current) && IsShb(blocks[0].raw)
    requires HeadAfter(blocks[0], force, sipnab, growth) == Ok(after[0])
    requires SectionSize(after[1..]) == SectionSize(blocks[1..]) + growth
    ensures |blocks[0].raw| >= 28 && |after[0].raw| >= 28 && LengthFollows(blocks, after, 0)
  {
    hide Value, Grown, SectionSize;
    GrownHeader(blocks[0], growth, current);
  }

  lemma FollowsInTail(blocks: seq<Block>, after: seq<Block>, i: nat)
    requires 1 <= i < |blocks| == |after| && |blocks[i].raw| >= 28 && |after[i].raw| >= 28
    requires LengthFollows(blocks[1..], after[1..], i - 1)
    ensures LengthFollows(blocks, after, i)
  {
    hide DeclaredLength;
    assert blocks[1..][i..] == blocks[i + 1..] && after[1..][i..] == after[i + 1..];
  }

  /** No insertion reported means nothing changed; any insertion makes the file longer. */
  lemma {:induction false} RewriteChanges(
    blocks: seq<Block>, current: Result<Endian>, force: bool, sipnab: bool, idbs: nat)
    requires Chained(blocks, current) && AllHaveHeaders(blocks)
    requires Rewrite(blocks, force, sipnab, idbs).Ok?
    ensures var tail := Rewrite(blocks, force, sipnab, idbs).value;
            && |Flatten(tail.blocks)| >= |Flatten(blocks)|
            && (NoInsertion(tail.notes) ==> tail.blocks == blocks && tail.growth == 0)
            && (!NoInsertion(tail.notes) ==> |Flatten(tail.blocks)| > |Flatten(blocks)|)
  {
    hide Rewrite, Rewritten, HeadAfter, HeadNotes, WellPlaced, SipnabAfter, IdbsAfter, IsShb;
    if blocks == [] {
      RewriteNothing(force, sipnab, idbs);
    } else {
      var b := blocks[0];
      RewriteCons(blocks, force, sipnab, idbs);
      var rest := Rewrite(blocks[1..], force, SipnabAfter(b, sipnab), IdbsAfter(b, idbs)).value;
      RewriteChanges(blocks[1..], Ok(b.endian), force, SipnabAfter(b, sipnab), IdbsAfter(b, idbs));
      HeadRewritten(b, current, force, sipnab, rest.growth, idbs);
      var tail := Rewrite(blocks, force, sipnab, idbs).value;
      HeadSizes(b, tail.blocks[0], force, sipnab, rest.growth, idbs);
      var head := HeadNotes(b, force, sipnab, idbs);
      assert NoInsertion(tail.notes) <==> NoInsertion(head) && NoInsertion(rest.notes) by {
        assert forall n :: n in tail.notes <==> n in head || n in rest.notes;
      }
      assert tail.blocks[1..] == rest.blocks;
    }
  }

  lemma HeadSizes(b: Block, after: Block, force: bool, sipnab: bool, growth: nat, idbs: nat)
    requires Rewritten(b, after) && HeadAfter(b, force, sipnab, growth) == Ok(after)
    ensures |after.raw| >= |b.raw|
    ensures IsShb(b.raw) ==> NoInsertion(HeadNotes(b, force, sipnab, idbs)) && |after.raw| == |b.raw|
    ensures IsShb(b.raw) && growth == 0 ==> after == b
    ensures !IsShb(b.raw) && after != b ==> |after.raw| > |b.raw|
  {
    hide TypeOf, WrittenBySipnab, ParseOptions, DeclaredLength;
  }

  // ---------------------------------------------------------------- whole files

  function BlocksOf(data: bytes): (r: Result<seq<Block>>) {
    ParseBlocks(data, Refused)
  }

  /** The blocks of an accepted file and of its repair. */
  lemma RepairedFile(data: bytes, force: bool)
    requires Repair(data, force).Ok?
    ensures BlocksOf(data).Ok?
    ensures var blocks := BlocksOf(data).value;
            && Chained(blocks, Refused) && AllHaveHeaders(blocks) && Flatten(blocks) == data
            && blocks != [] && IsShb(blocks[0].raw)
            && Rewrite(blocks, force, false, 0).Ok?
            && Repair(data, force).value.data == Flatten(Rewrite(blocks, force, false, 0).value.blocks)
            && Repair(data, force).value.notes == Rewrite(blocks, force, false, 0).value.notes
  {
    hide HeadBlock, Rewrite, WellPlaced;
    ParsedBlocksAreChained(data, Refused);
    ParsedBlocksHaveHeaders(data, Refused);
    var blocks := BlocksOf(data).value;
    assert blocks[0].raw[..4] == data[..4];
  }

  /** The repaired file is a stream of framed blocks again: the same blocks in the same order, each as
      it was except for section lengths and interfaces that gained the resolution option. */
  lemma RepairPreservesBlocks(data: bytes, force: bool)
    requires Repair(data, force).Ok?
    ensures var out := Repair(data, force).value.data;
            && BlocksOf(data).Ok? && BlocksOf(out).Ok?
            && var blocks, after := BlocksOf(data).value, BlocksOf(out).value;
            && Chained(after, Refused) && Flatten(after) == out
            && |after| == |blocks|
            && forall i :: 0 <= i < |blocks| ==> Rewritten(blocks[i], after[i])
  {
    hide Repair, ParseBlocks, Rewrite, Rewritten, WellPlaced, IsShb;
    RepairedFile(data, force);
    BlocksOfRepaired(data, force);
    RewriteShape(BlocksOf(data).value, Refused, force, false, 0);
  }

  lemma ShbStaysShb(b: Block, after: Block)
    requires Rewritten(b, after)
    ensures IsShb(b.raw) <==> IsShb(after.raw)
  {
    ShbTypeEitherOrder(b.endian, b.raw);
    ShbTypeEitherOrder(after.endian, after.raw);
  }

  /** The blocks of the output are the rewritten blocks. */
  lemma BlocksOfRepaired(data: bytes, force: bool)
    requires Repair(data, force).Ok?
    ensures BlocksOf(data).Ok? && AllHaveHeaders(BlocksOf(data).value)
    ensures Rewrite(BlocksOf(data).value, force, false, 0).Ok?
    ensures BlocksOf(Repair(data, force).value.data) == Ok(Rewrite(BlocksOf(data).value, force, false, 0).value.blocks)
  {
    hide Repair, ParseBlocks, Rewrite, Rewritten, WellPlaced, IsShb;
    RepairedFile(data, force);
    var blocks := BlocksOf(data).value;
    RewriteShape(blocks, Refused, force, false, 0);
    var after := Rewrite(blocks, force, false, 0).value.blocks;
    forall b | b in after && IsShb(b.raw)
      ensures |b.raw| >= 16
    {
      var i :| 0 <= i < |after| && after[i] == b;
      ShbStaysShb(blocks[i], after[i]);
      RewrittenHasHeader(blocks[i], after[i]);
    }
    ChainedBlocksReparse(after, Refused);
  }

  /** A second repair succeeds and returns the bytes it was given. */
  lemma RepairIdempotent(data: bytes, force: bool)
    requires Repair(data, force).Ok?
    ensures var out := Repair(data, force).value.data;
            && Repair(out, force).Ok?
            && Repair(out, force).value.data == out
            && !Repair(out, force).value.changed
            && NoInsertion(Repair(out, force).value.notes)
  {
    hide ParseBlocks, Rewrite, Rewritten, WellPlaced, IsShb;
    RepairedFile(data, force);
    BlocksOfRepaired(data, force);
    var blocks := BlocksOf(data).value;
    RewriteShape(blocks, Refused, force, false, 0);
    RewriteAgain(blocks, Refused, force, false, 0);
    var after := Rewrite(blocks, force, false, 0).value.blocks;
    StartsWithShb(blocks, after);
  }

  lemma StartsWithShb(blocks: seq<Block>, after: seq<Block>)
    requires |blocks| == |after| >= 1 && IsShb(blocks[0].raw) && Rewritten(blocks[0], after[0])
    ensures |Flatten(after)| >= 28 && IsShb(Flatten(after))
  {
    hide TypeOf;
    assert Flatten(after)[..4] == after[0].raw[..16][..4] == blocks[0].raw[..16][..4] == blocks[0].raw[..4];
  }

  /** Every interface that is eligible in the repaired file states its resolution. */
  lemma RepairShowsResolution(data: bytes, force: bool)
    requires Repair(data, force).Ok?
    ensures BlocksOf(Repair(data, force).value.data).Ok?
    ensures AllShowResolution(BlocksOf(Repair(data, force).value.data).value, force, false)
  {
    hide Repair, ParseBlocks, Rewrite, WellPlaced, AllShowResolution;
    RepairedFile(data, force);
    BlocksOfRepaired(data, force);
    RewriteAgain(BlocksOf(data).value, Refused, force, false, 0);
  }

  /** Section lengths: the unspecified value is left alone, and any other declared length is exactly
      as far from the true one as before; in particular a length that was right is right again. */
  lemma RepairKeepsSectionLengths(data: bytes, force: bool, i: nat)
    requires Repair(data, force).Ok?
    requires BlocksOf(data).Ok? && i < |BlocksOf(data).value| && IsShb(BlocksOf(data).value[i].raw)
    ensures BlocksOf(Repair(data, force).value.data).Ok?
    ensures var blocks, after := BlocksOf(data).value, BlocksOf(Repair(data, force).value.data).value;
            && |after| == |blocks| && |blocks[i].raw| >= 28 && |after[i].raw| >= 28
            && LengthFollows(blocks, after, i)
            && (DeclaredLength(blocks[i]) != UNSPECIFIED_SECTION_LEN ==>
                  (DeclaredLength(blocks[i]) == SectionSize(blocks[i + 1..]) <==>
                   DeclaredLength(after[i]) == SectionSize(after[i + 1..])))
  {
    hide Repair, ParseBlocks, Rewrite, WellPlaced, DeclaredLength, SectionSize;
    RepairedFile(data, force);
    BlocksOfRepaired(data, force);
    RewriteLengths(BlocksOf(data).value, Refused, force, false, 0);
  }

  /** The file counts as changed exactly when some interface got the option. */
  lemma RepairChangedIffInserted(data: bytes, force: bool)
    requires Repair(data, force).Ok?
    ensures Repair(data, force).value.changed <==> exists n :: n in Repair(data, force).value.notes && n.Inserted?
    ensures Repair(data, force).value.changed ==> |Repair(data, force).value.data| > |data|
  {
    hide ParseBlocks, Rewrite, WellPlaced, IsShb;
    RepairedFile(data, force);
    RewriteChanges(BlocksOf(data).value, Refused, force, false, 0);
  }
}
