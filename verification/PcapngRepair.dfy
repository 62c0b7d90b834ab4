/** `repair`: the specification of the whole rewrite, as a function on blocks, and the one-pass
    loop of the script proved equal to it. */
module PcapngRepair {
  import opened Results
  import opened Bytes
  import opened Pcapng

  /** A line of the report, for the interface with this one-based number. */
  datatype Note =
    | ForeignResolution(idb: nat)
    | Skipped(idb: nat)
    | Inserted(idb: nat)

  // ---------------------------------------------------------------- one interface block

  function TsresolOption(e: Endian): bytes {
    Put(e, 2, OPT_IF_TSRESOL) + Put(e, 2, 1) + [9, 0, 0, 0]
  }

  function EndOfOptions(e: Endian): bytes {
    Put(e, 2, OPT_ENDOFOPT) + Put(e, 2, 0)
  }

  /** The option area with `if_tsresol = 9` put in front of the end marker, or at the end with a
      marker of its own when there is none. */
  function InsertTsresol(e: Endian, area: bytes, opts: seq<Opt>): bytes
    requires forall o :: o in opts ==> o.start <= |area|
  {
    var k := FirstWith(opts, OPT_ENDOFOPT);
    if k == |opts| then area + TsresolOption(e) + EndOfOptions(e)
    else area[..opts[k].start] + TsresolOption(e) + area[opts[k].start..]
  }

  /** The option area of an interface block: what follows its eight fixed bytes. */
  function OptionArea(b: Block): bytes
    requires |b.raw| >= 12
  {
    if |BodyOf(b)| >= 8 then BodyOf(b)[8..] else []
  }

  function MakeBlock(e: Endian, kind: nat, body: bytes): Block {
    Block(e, Put(e, 4, kind) + Put(e, 4, |body| + 12) + body + Put(e, 4, |body| + 12))
  }

  predicate Eligible(opts: seq<Opt>, force: bool, sipnab: bool) {
    force || sipnab || Contains(FirstValue(opts, OPT_IF_DESCRIPTION), SIPNAB)
  }

  lemma {:induction false} OptionsInArea(e: Endian, area: bytes, pos: nat)
    requires ParseOptions(e, area, pos).Ok?
    ensures forall o :: o in ParseOptions(e, area, pos).value ==> pos <= o.start < o.end <= |area|
    decreases |area| - pos
  {
    hide OptionHere;
    if pos < |area| {
      var opt := OptionHere(e, area, pos).value;
      if opt.code != OPT_ENDOFOPT {
        OptionsInArea(e, area, opt.end);
      }
    }
  }

  /** An eligible interface block after repair: unchanged if it states a resolution already. */
  function InsertInto(b: Block, opts: seq<Opt>): (r: Result<Block>)
    requires |b.raw| >= 12
    requires ParseOptions(b.endian, OptionArea(b), 0) == Ok(opts)
    ensures r.Ok? ==> |r.value.raw| - |b.raw| in {0, 8, 12}
  {
    if |BodyOf(b)| < 8 then Refused
    else if Has(opts, OPT_IF_TSRESOL) then Ok(b)
    else
      OptionsInArea(b.endian, OptionArea(b), 0);
      var body := BodyOf(b)[..8] + InsertTsresol(b.endian, OptionArea(b), opts);
      if |body| + 12 >= CAPACITY32 then Refused else Ok(MakeBlock(b.endian, IDB_TYPE, body))
  }

  function RepairIdb(b: Block, force: bool, sipnab: bool): (r: Result<Block>)
    requires |b.raw| >= 12
    ensures r.Ok? ==> |r.value.raw| - |b.raw| in {0, 8, 12}
  {
    var opts :- ParseOptions(b.endian, OptionArea(b), 0);
    if Eligible(opts, force, sipnab) then InsertInto(b, opts) else Ok(b)
  }

  /** What the report says about interface number `idb`. */
  function IdbNotes(b: Block, force: bool, sipnab: bool, idb: nat): seq<Note>
    requires |b.raw| >= 12
    requires ParseOptions(b.endian, OptionArea(b), 0).Ok?
  {
    var opts := ParseOptions(b.endian, OptionArea(b), 0).value;
    if Has(opts, OPT_IF_TSRESOL) then
      var value := FirstValue(opts, OPT_IF_TSRESOL);
      if Eligible(opts, force, sipnab) && !(value != [] && value[0] == 9) then [ForeignResolution(idb)] else []
    else if Eligible(opts, force, sipnab) then [Inserted(idb)]
    else [Skipped(idb)]
  }

  // ---------------------------------------------------------------- section headers

  function DeclaredLength(shb: Block): nat
    requires |shb.raw| >= 28
  {
    Field(shb.endian, shb.raw, 16, 8)
  }

  function WithLength(shb: Block, length: nat): Block
    requires |shb.raw| >= 28
  {
    Block(shb.endian, shb.raw[..16] + Put(shb.endian, 8, length) + shb.raw[24..])
  }

  /** The section header once its section has grown by `growth` bytes. */
  function Grown(shb: Block, growth: nat): (r: Result<Block>)
    requires |shb.raw| >= 28
  {
    var declared := DeclaredLength(shb);
    if declared == UNSPECIFIED_SECTION_LEN || growth == 0 then Ok(shb)
    else if declared + growth >= CAPACITY64 then Refused
    else Ok(WithLength(shb, declared + growth))
  }

  /** Whether the section header says sipnab wrote the section; refused when it is malformed. */
  function WrittenBySipnab(shb: Block): (r: Result<bool>)
    ensures r.Ok? ==> |shb.raw| >= 28
  {
    if |shb.raw| < 28 then Refused
    else
      var opts :- ParseOptions(shb.endian, BodyOf(shb)[16..], 0);
      Ok(Contains(FirstValue(opts, OPT_SHB_USERAPPL), SIPNAB))
  }

  // ---------------------------------------------------------------- the whole file

  /** The rewritten blocks, how much the blocks before the next section header grew, and the notes. */
  datatype Tail = Tail(blocks: seq<Block>, growth: nat, notes: seq<Note>)

  /** Rewrites a sequence of blocks. The growth of a section is known only once its blocks are
      rewritten, so it flows from the back towards the section header that declares the length. */
  function Rewrite(blocks: seq<Block>, force: bool, sipnab: bool, idbs: nat): (r: Result<Tail>)
    requires forall b :: b in blocks ==> |b.raw| >= 12
  {
    if blocks == [] then Ok(Tail([], 0, []))
    else
      var b := blocks[0];
      if IsShb(b.raw) then
        var mine :- WrittenBySipnab(b);
        var rest :- Rewrite(blocks[1..], force, mine, idbs);
        var shb :- Grown(b, rest.growth);
        Ok(Tail([shb] + rest.blocks, 0, rest.notes))
      else if TypeOf(b) == IDB_TYPE then
        var fixed :- RepairIdb(b, force, sipnab);
        var rest :- Rewrite(blocks[1..], force, sipnab, idbs + 1);
        Ok(Tail([fixed] + rest.blocks, |fixed.raw| - |b.raw| + rest.growth,
                IdbNotes(b, force, sipnab, idbs + 1) + rest.notes))
      else
        var rest :- Rewrite(blocks[1..], force, sipnab, idbs);
        Ok(Tail([b] + rest.blocks, rest.growth, rest.notes))
  }

  datatype Output = Output(data: bytes, changed: bool, notes: seq<Note>)

  function RewriteStream(data: bytes, current: Result<Endian>, force: bool, sipnab: bool, idbs: nat)
    : (r: Result<Tail>)
  {
    var blocks :- ParseBlocks(data, current);
    ParsedBlocksHaveHeaders(data, current);
    Rewrite(blocks, force, sipnab, idbs)
  }

  /** `repair`: cut the file into blocks, rewrite them, and put them back together. */
  function Repair(data: bytes, force: bool): (r: Result<Output>) {
    if |data| < 28 || !IsShb(data) then Refused
    else
      var tail :- RewriteStream(data, Refused, force, false, 0);
      var out := Flatten(tail.blocks);
      Ok(Output(out, out != data, tail.notes))
  }

  lemma {:induction false} ParsedBlocksHaveHeaders(data: bytes, current: Result<Endian>)
    requires ParseBlocks(data, current).Ok?
    ensures forall b :: b in ParseBlocks(data, current).value ==> |b.raw| >= 12
    decreases |data|
  {
    hide Value;
    if data != [] {
      var b := HeadBlock(data, current).value;
      ParsedBlocksHaveHeaders(data[|b.raw|..], Ok(b.endian));
    }
  }

  // ---------------------------------------------------------------- the one-pass loop

  /** The section in progress: where its length field sits in the output, the length it declared,
      and how much its blocks have grown so far. */
  datatype Section = NoSection | Section(at: nat, declared: nat, delta: nat)

  /** The output with the section's length field brought up to date (`flush_section`). */
  function Flushed(out: bytes, section: Section, e: Result<Endian>): (r: Result<bytes>)
    requires section.Section? ==> section.at + 8 <= |out| && e.Ok?
    ensures r.Ok? ==> |r.value| == |out|
  {
    if section.NoSection? || section.declared == UNSPECIFIED_SECTION_LEN || section.delta == 0 then Ok(out)
    else if section.declared + section.delta >= CAPACITY64 then Refused
    else Ok(out[..section.at] + Put(e.value, 8, section.declared + section.delta) + out[section.at + 8..])
  }

  /** What the loop will return from here if the rest of the stream is rewritten to `rest`. */
  function Completed(out: bytes, section: Section, e: Result<Endian>, notes: seq<Note>, rest: Result<Tail>)
    : (r: Result<(bytes, seq<Note>)>)
    requires section.Section? ==> section.at + 8 <= |out| && e.Ok?
  {
    var tail :- rest;
    var grown := if section.Section? then section.(delta := section.delta + tail.growth) else section;
    var flushed :- Flushed(out, grown, e);
    Ok((flushed + Flatten(tail.blocks), notes + tail.notes))
  }

  /** One unrolling of the specification: the head block, then the rest of the stream. */
  function Onto(b: Block, force: bool, sipnab: bool, idbs: nat, rest: Result<Tail>): (r: Result<Tail>)
    requires |b.raw| >= 12
  {
    if IsShb(b.raw) then
      var tail :- rest;
      var _ :- WrittenBySipnab(b);
      var shb :- Grown(b, tail.growth);
      Ok(Tail([shb] + tail.blocks, 0, tail.notes))
    else if TypeOf(b) == IDB_TYPE then
      var fixed :- RepairIdb(b, force, sipnab);
      var tail :- rest;
      var notes := IdbNotes(b, force, sipnab, idbs + 1) + tail.notes;
      Ok(Tail([fixed] + tail.blocks, |fixed.raw| - |b.raw| + tail.growth, notes))
    else
      var tail :- rest;
      Ok(Tail([b] + tail.blocks, tail.growth, tail.notes))
  }

  function SipnabAfter(b: Block, sipnab: bool): bool {
    if IsShb(b.raw) then WrittenBySipnab(b) == Ok(true) else sipnab
  }

  function IdbsAfter(b: Block, idbs: nat): nat
    requires |b.raw| >= 12
  {
    if !IsShb(b.raw) && TypeOf(b) == IDB_TYPE then idbs + 1 else idbs
  }

  lemma RewriteStep(blocks: seq<Block>, force: bool, sipnab: bool, idbs: nat)
    requires blocks != [] && forall b :: b in blocks ==> |b.raw| >= 12
    ensures var b := blocks[0];
            Rewrite(blocks, force, sipnab, idbs) ==
            Onto(b, force, sipnab, idbs, Rewrite(blocks[1..], force, SipnabAfter(b, sipnab), IdbsAfter(b, idbs)))
  {
    hide TypeOf, Grown, RepairIdb, IdbNotes, IsShb, WrittenBySipnab;
  }

  lemma StreamStep(stream: bytes, current: Result<Endian>, b: Block, force: bool, sipnab: bool, idbs: nat)
    requires HeadBlock(stream, current) == Ok(b)
    ensures RewriteStream(stream, current, force, sipnab, idbs)
         == Onto(b, force, sipnab, idbs,
                 RewriteStream(stream[|b.raw|..], Ok(b.endian), force, SipnabAfter(b, sipnab), IdbsAfter(b, idbs)))
  {
    hide HeadBlock, Rewrite, SipnabAfter, IdbsAfter;
    var rest := ParseBlocks(stream[|b.raw|..], Ok(b.endian));
    if rest.Ok? {
      ParsedBlocksHaveHeaders(stream, current);
      var blocks := ParseBlocks(stream, current).value;
      assert blocks[0] == b && blocks[1..] == rest.value;
      hide Onto;
      RewriteStep(blocks, force, sipnab, idbs);
    }
  }

  /** A section header: the section before it is flushed and a new one starts. */
  lemma ShbStep(
    b: Block, tail: Tail, out: bytes, flushed: bytes, section: Section, current: Result<Endian>, notes: seq<Note>,
    force: bool, sipnab: bool, idbs: nat)
    requires section.Section? ==> section.at + 8 <= |out| && current.Ok?
    requires IsShb(b.raw) && WrittenBySipnab(b).Ok?
    requires Flushed(out, section, current) == Ok(flushed)
    ensures Completed(out, section, current, notes, Onto(b, force, sipnab, idbs, Ok(tail)))
         == Completed(flushed + b.raw, Section(|out| + 16, DeclaredLength(b), 0), Ok(b.endian), notes, Ok(tail))
  {
    hide Value, Put, WrittenBySipnab;
    var shb := Grown(b, tail.growth);
    var all := flushed + b.raw;
    var next := Section(|out| + 16, DeclaredLength(b), tail.growth);
    if shb.Ok? {
      assert Flushed(all, next, Ok(b.endian)) == Ok(flushed + shb.value.raw) by {
        assert all[..|out| + 16] == flushed + b.raw[..16];
        assert all[|out| + 24..] == b.raw[24..];
        assert forall mid: bytes ::
            (flushed + b.raw[..16]) + mid + b.raw[24..] == flushed + (b.raw[..16] + mid + b.raw[24..]);
      }
      assert Flatten([shb.value] + tail.blocks) == shb.value.raw + Flatten(tail.blocks);
      assert flushed + (shb.value.raw + Flatten(tail.blocks)) == (flushed + shb.value.raw) + Flatten(tail.blocks);
    }
  }

  /** A block appended to the section in progress, which grows by the difference. */
  lemma AppendStep(
    b: Block, fixed: Block, more: seq<Note>, tail: Tail, out: bytes, section: Section, current: Result<Endian>,
    notes: seq<Note>)
    requires section.Section? && section.at + 8 <= |out| && current.Ok?
    requires |fixed.raw| >= |b.raw|
    ensures Completed(out, section, current, notes,
                      Ok(Tail([fixed] + tail.blocks, |fixed.raw| - |b.raw| + tail.growth, more + tail.notes)))
         == Completed(out + fixed.raw, section.(delta := section.delta + |fixed.raw| - |b.raw|), current,
                      notes + more, Ok(tail))
  {
    hide Value, Put;
    var growth := section.delta + |fixed.raw| - |b.raw| + tail.growth;
    var done := section.(delta := growth);
    var before := Flushed(out, done, current);
    var after := Flushed(out + fixed.raw, done, current);
    assert before.Ok? == after.Ok?;
    if before.Ok? {
      assert after.value == before.value + fixed.raw by {
        assert (out + fixed.raw)[..section.at] == out[..section.at];
        assert (out + fixed.raw)[section.at + 8..] == out[section.at + 8..] + fixed.raw;
        assert forall x: bytes, y: bytes, z: bytes :: x + y + (z + fixed.raw) == (x + y + z) + fixed.raw;
      }
      assert Flatten([fixed] + tail.blocks) == fixed.raw + Flatten(tail.blocks);
      assert before.value + (fixed.raw + Flatten(tail.blocks)) == after.value + Flatten(tail.blocks);
      assert notes + (more + tail.notes) == (notes + more) + tail.notes;
    }
  }

  /** The section header's type reads the same in both byte orders. */
  lemma ShbTypeEitherOrder(e: Endian, raw: bytes)
    requires |raw| >= 4
    ensures Field(e, raw, 0, 4) == SHB_TYPE <==> IsShb(raw)
  {
    var bs := raw[..4];
    assert raw[0..4] == bs;
    PutOfValue(e, bs);
    assert Put(e, 1, 0x0A) == [0x0A];
    assert Put(e, 2, 0x0A0D) == if e.Big? then [0x0A, 0x0D] else [0x0D, 0x0A];
    assert Put(e, 3, 0x0A0D0D) == if e.Big? then [0x0A, 0x0D, 0x0D] else [0x0D, 0x0D, 0x0A];
    assert Put(e, 4, SHB_TYPE) == SHB_BYTES;
    Capacities();
    ValueOfPut(e, 4, SHB_TYPE);
  }

  /** `_repair_idb`, and the choice around it of which interfaces to repair. */
  method RepairInterface(b: Block, force: bool, sipnab: bool, idb: nat) returns (r: Result<(Block, seq<Note>)>)
    requires |b.raw| >= 12
    ensures r.Ok? == RepairIdb(b, force, sipnab).Ok?
    ensures r.Ok? ==> r.value == (RepairIdb(b, force, sipnab).value, IdbNotes(b, force, sipnab, idb))
  {
    hide Value, Put, InsertTsresol;
    var body := b.raw[8..|b.raw| - 4];
    var area := if |body| >= 8 then body[8..] else [];
    var parsed := Options(b.endian, area);
    if parsed.Refused? {
      return Refused;
    }
    var opts := parsed.value;
    if !(force || sipnab || Contains(FirstValue(opts, OPT_IF_DESCRIPTION), SIPNAB)) {
      return Ok((b, if Has(opts, OPT_IF_TSRESOL) then [] else [Skipped(idb)]));
    }
    if |body| < 8 {
      return Refused;
    }
    if Has(opts, OPT_IF_TSRESOL) {
      var value := FirstValue(opts, OPT_IF_TSRESOL);
      return Ok((b, if value == [] || value[0] != 9 then [ForeignResolution(idb)] else []));
    }
    OptionsInArea(b.endian, area, 0);
    var newBody := body[..8] + InsertTsresol(b.endian, area, opts);
    if |newBody| + 12 >= CAPACITY32 {
      return Refused;
    }
    return Ok((MakeBlock(b.endian, IDB_TYPE, newBody), [Inserted(idb)]));
  }

  /** The header and trailer checks at the top of the loop. */
  method CutBlock(data: bytes, pos: nat, current: Result<Endian>) returns (r: Result<Block>)
    requires pos < |data|
    ensures r == HeadBlock(data[pos..], current)
  {
    hide Value;
    ghost var rest := data[pos..];
    if pos + 8 > |data| {
      return Refused;
    }
    assert rest[..4] == data[pos..pos + 4];
    var endian := current;
    if data[pos..pos + 4] == SHB_BYTES {
      if pos + 16 > |data| {
        return Refused;
      }
      assert rest[8..12] == data[pos + 8..pos + 12];
      if Field(Little, data, pos + 8, 4) == BYTE_ORDER_MAGIC {
        endian := Ok(Little);
      } else if Field(Big, data, pos + 8, 4) == BYTE_ORDER_MAGIC {
        endian := Ok(Big);
      } else {
        return Refused;
      }
    } else if endian.Refused? {
      return Refused;
    }
    assert rest[4..8] == data[pos + 4..pos + 8];
    var total := Field(endian.value, data, pos + 4, 4);
    if total < 12 || total % 4 != 0 || pos + total > |data| {
      return Refused;
    }
    assert rest[total - 4..total] == data[pos + total - 4..pos + total];
    if Field(endian.value, data, pos + total - 4, 4) != total {
      return Refused;
    }
    assert rest[..total] == data[pos..pos + total];
    return Ok(Block(endian.value, data[pos..pos + total]));
  }

  /** Reading a section header: the length it declares and whether sipnab wrote the section. */
  method ReadSectionHeader(b: Block) returns (r: Result<(nat, bool)>)
    requires |b.raw| >= 12
    ensures r.Ok? == WrittenBySipnab(b).Ok?
    ensures r.Ok? ==> r.value == (DeclaredLength(b), WrittenBySipnab(b).value)
  {
    hide Value;
    var body := BodyOf(b);
    if |body| < 16 {
      return Refused;
    }
    assert body[8..16] == b.raw[16..24];
    var parsed := Options(b.endian, body[16..]);
    if parsed.Refused? {
      return Refused;
    }
    return Ok((Field(b.endian, body, 8, 8), Contains(FirstValue(parsed.value, OPT_SHB_USERAPPL), SIPNAB)));
  }

  lemma CompletedAtStart(goal: Result<Tail>)
    ensures match Completed([], NoSection, Refused, [], goal)
            case Refused => goal.Refused?
            case Ok(done) => goal.Ok? && done == (Flatten(goal.value.blocks), goal.value.notes)
  {
    if goal.Ok? {
      assert [] + Flatten(goal.value.blocks) == Flatten(goal.value.blocks);
      assert [] + goal.value.notes == goal.value.notes;
    }
  }

  lemma ShbIteration(stream: bytes, current: Result<Endian>, b: Block, force: bool, sipnab: bool, idbs: nat,
                     out: bytes, section: Section, notes: seq<Note>)
    requires section.Section? ==> section.at + 8 <= |out| && current.Ok?
    requires HeadBlock(stream, current) == Ok(b) && IsShb(b.raw)
    ensures WrittenBySipnab(b).Refused? || Flushed(out, section, current).Refused? ==>
              Completed(out, section, current, notes, RewriteStream(stream, current, force, sipnab, idbs)).Refused?
    ensures WrittenBySipnab(b).Ok? && Flushed(out, section, current).Ok? ==>
              Completed(Flushed(out, section, current).value + b.raw,
                        Section(|out| + 16, DeclaredLength(b), 0), Ok(b.endian), notes,
                        RewriteStream(stream[|b.raw|..], Ok(b.endian), force, WrittenBySipnab(b).value, idbs)) ==
              Completed(out, section, current, notes, RewriteStream(stream, current, force, sipnab, idbs))
  {
    hide Value, HeadBlock, RewriteStream, Grown, WrittenBySipnab, IsShb;
    StreamStep(stream, current, b, force, sipnab, idbs);
    var rest := RewriteStream(stream[|b.raw|..], Ok(b.endian), force, SipnabAfter(b, sipnab), IdbsAfter(b, idbs));
    if rest.Ok? && WrittenBySipnab(b).Ok? && Flushed(out, section, current).Ok? {
      ShbStep(b, rest.value, out, Flushed(out, section, current).value, section, current, notes, force, sipnab, idbs);
    }
  }

  lemma IdbIteration(stream: bytes, current: Result<Endian>, b: Block, force: bool, sipnab: bool, idbs: nat,
                     out: bytes, section: Section, notes: seq<Note>)
    requires section.Section? && section.at + 8 <= |out| && current.Ok?
    requires HeadBlock(stream, current) == Ok(b) && !IsShb(b.raw) && TypeOf(b) == IDB_TYPE
    ensures RepairIdb(b, force, sipnab).Refused? ==>
              Completed(out, section, current, notes, RewriteStream(stream, current, force, sipnab, idbs)).Refused?
    ensures RepairIdb(b, force, sipnab).Ok? ==>
              Completed(out + RepairIdb(b, force, sipnab).value.raw,
                        section.(delta := section.delta + |RepairIdb(b, force, sipnab).value.raw| - |b.raw|), current,
                        notes + IdbNotes(b, force, sipnab, idbs + 1),
                        RewriteStream(stream[|b.raw|..], Ok(b.endian), force, sipnab, idbs + 1)) ==
              Completed(out, section, current, notes, RewriteStream(stream, current, force, sipnab, idbs))
  {
    hide Value, HeadBlock, RewriteStream, Flushed, IdbNotes, IsShb, InsertInto;
    StreamStep(stream, current, b, force, sipnab, idbs);
    var rest := RewriteStream(stream[|b.raw|..], Ok(b.endian), force, SipnabAfter(b, sipnab), IdbsAfter(b, idbs));
    if rest.Ok? && RepairIdb(b, force, sipnab).Ok? {
      AppendStep(b, RepairIdb(b, force, sipnab).value, IdbNotes(b, force, sipnab, idbs + 1), rest.value, out, section,
        current, notes);
    }
  }

  lemma PlainIteration(stream: bytes, current: Result<Endian>, b: Block, force: bool, sipnab: bool, idbs: nat,
                       out: bytes, section: Section, notes: seq<Note>)
    requires section.Section? && section.at + 8 <= |out| && current.Ok?
    requires HeadBlock(stream, current) == Ok(b) && !IsShb(b.raw) && TypeOf(b) != IDB_TYPE
    ensures Completed(out, section, current, notes, RewriteStream(stream, current, force, sipnab, idbs))
         == Completed(out + b.raw, section, current, notes,
                      RewriteStream(stream[|b.raw|..], Ok(b.endian), force, sipnab, idbs))
  {
    hide Value, HeadBlock, RewriteStream, Flushed, IsShb;
    StreamStep(stream, current, b, force, sipnab, idbs);
    var rest := RewriteStream(stream[|b.raw|..], Ok(b.endian), force, SipnabAfter(b, sipnab), IdbsAfter(b, idbs));
    if rest.Ok? {
      AppendStep(b, b, [], rest.value, out, section, current, notes);
      assert [] + rest.value.notes == rest.value.notes && notes + [] == notes;
    }
  }

  lemma LastIteration(
    out: bytes, section: Section, current: Result<Endian>, notes: seq<Note>, force: bool, sipnab: bool, idbs: nat)
    requires section.Section? ==> section.at + 8 <= |out| && current.Ok?
    ensures match Completed(out, section, current, notes, RewriteStream([], current, force, sipnab, idbs))
            case Refused => Flushed(out, section, current).Refused?
            case Ok(done) => Flushed(out, section, current) == Ok(done.0) && notes == done.1
  {
    assert RewriteStream([], current, force, sipnab, idbs) == Ok(Tail([], 0, []));
    assert forall s: bytes :: s + [] == s;
    assert notes + [] == notes;
  }

  /** `repair`: one pass over the bytes, with the section in progress patched when it ends. */
  method RepairBytes(data: bytes, force: bool) returns (r: Result<Output>)
    ensures r == Repair(data, force)
  {
    hide Value, Put, HeadBlock, Rewrite, RewriteStream, Completed, Flushed, RepairIdb, IdbNotes,
      WrittenBySipnab, Flatten;
    if |data| < 28 || data[..4] != SHB_BYTES {
      return Refused;
    }
    ghost var goal := RewriteStream(data, Refused, force, false, 0);
    var out: bytes, notes: seq<Note>, pos, idbs := [], [], 0, 0;
    var endian: Result<Endian>, section, sipnab := Refused, NoSection, false;
    CompletedAtStart(goal);
    assert data[0..] == data;
    while pos < |data|
      invariant 0 <= pos <= |data|
      invariant section.Section? ==> section.at + 8 <= |out|
      invariant section.Section? <==> endian.Ok?
      invariant Completed([], NoSection, Refused, [], goal)
             == Completed(out, section, endian, notes, RewriteStream(data[pos..], endian, force, sipnab, idbs))
    {
      var head := CutBlock(data, pos, endian);
      if head.Refused? {
        RefusedIteration(data[pos..], endian, force, sipnab, idbs, out, section, notes);
        return Refused;
      }
      var b := head.value;
      ghost var rest := data[pos..];
      assert rest[|b.raw|..] == data[pos + |b.raw|..];
      ShbTypeEitherOrder(b.endian, b.raw);
      HeadBlockIsWellPlaced(rest, endian);
      if TypeOf(b) == SHB_TYPE {
        ShbIteration(rest, endian, b, force, sipnab, idbs, out, section, notes);
        var flushed := Flushed(out, section, endian);
        if flushed.Refused? {
          return Refused;
        }
        var header := ReadSectionHeader(b);
        if header.Refused? {
          return Refused;
        }
        section := Section(|out| + 16, header.value.0, 0);
        sipnab := header.value.1;
        out := flushed.value + b.raw;
        endian := Ok(b.endian);
      } else if TypeOf(b) == IDB_TYPE {
        IdbIteration(rest, endian, b, force, sipnab, idbs, out, section, notes);
        idbs := idbs + 1;
        var fixed := RepairInterface(b, force, sipnab, idbs);
        if fixed.Refused? {
          return Refused;
        }
        out := out + fixed.value.0.raw;
        notes := notes + fixed.value.1;
        section := section.(delta := section.delta + |fixed.value.0.raw| - |b.raw|);
      } else {
        PlainIteration(rest, endian, b, force, sipnab, idbs, out, section, notes);
        out := out + b.raw;
      }
      pos := pos + |b.raw|;
    }
    assert data[pos..] == [];
    LastIteration(out, section, endian, notes, force, sipnab, idbs);
    var flushed := Flushed(out, section, endian);
    if flushed.Refused? {
      return Refused;
    }
    return Ok(Output(flushed.value, flushed.value != data, notes));
  }

  lemma RefusedIteration(stream: bytes, current: Result<Endian>, force: bool, sipnab: bool, idbs: nat,
                         out: bytes, section: Section, notes: seq<Note>)
    requires section.Section? ==> section.at + 8 <= |out| && current.Ok?
    requires stream != [] && HeadBlock(stream, current).Refused?
    ensures Completed(out, section, current, notes, RewriteStream(stream, current, force, sipnab, idbs)).Refused?
  {
    hide HeadBlock;
  }
}
