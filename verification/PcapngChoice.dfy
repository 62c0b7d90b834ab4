/** Which interfaces of a capture are repaired and what is reported about them, stated on the options
    that stand in the file. */
module PcapngChoice {
  import opened Results
  import opened Bytes
  import opened Pcapng
  import opened PcapngRepair
  import opened PcapngTheorems

  // ---------------------------------------------------------------- options

  /** Option `k` is the first with this code. */
  predicate IsFirst(opts: seq<Opt>, code: nat, k: nat) {
    k < |opts| && opts[k].code == code && forall j :: 0 <= j < k ==> opts[j].code != code
  }

  /** The letters of `sipnab` stand at `at` in the value. */
  predicate NamesSipnab(value: bytes, at: nat) {
    at + 6 <= |value| && value[at..at + 6] == ['s' as int, 'i' as int, 'p' as int, 'n' as int, 'a' as int, 'b' as int]
  }

  /** The first option with this code has `sipnab` somewhere in its value. */
  ghost predicate SaysSipnab(opts: seq<Opt>, code: nat) {
    exists k: nat, at: nat :: IsFirst(opts, code, k) && NamesSipnab(opts[k].value, at)
  }

  predicate NoneWith(opts: seq<Opt>, code: nat) {
    forall k :: 0 <= k < |opts| ==> opts[k].code != code
  }

  lemma FirstIs(opts: seq<Opt>, code: nat, k: nat)
    ensures IsFirst(opts, code, k) <==> k < |opts| && k == FirstWith(opts, code)
  {
    var first := FirstWith(opts, code);
    if IsFirst(opts, code, k) {
      assert !(first < k) && !(k < first);
    }
  }

  lemma HasIff(opts: seq<Opt>, code: nat)
    ensures Has(opts, code) <==> !NoneWith(opts, code)
  {
  }

  lemma SaysIff(opts: seq<Opt>, code: nat)
    ensures Contains(FirstValue(opts, code), SIPNAB) <==> SaysSipnab(opts, code)
  {
    var k := FirstWith(opts, code);
    FirstIs(opts, code, k);
    if Contains(FirstValue(opts, code), SIPNAB) {
      var at: nat :| 0 <= at <= |FirstValue(opts, code)| && OccursAt(FirstValue(opts, code), SIPNAB, at);
      assert NamesSipnab(opts[k].value, at);
    }
    if SaysSipnab(opts, code) {
      var j: nat, at: nat :| IsFirst(opts, code, j) && NamesSipnab(opts[j].value, at);
      FirstIs(opts, code, j);
      assert OccursAt(FirstValue(opts, code), SIPNAB, at);
    }
  }

  // ---------------------------------------------------------------- blocks

  /** The options of an interface block. */
  function InterfaceOptions(b: Block): Result<seq<Opt>> {
    if |b.raw| < 20 then Ok([]) else ParseOptions(b.endian, b.raw[16..|b.raw| - 4], 0)
  }

  predicate IsInterface(b: Block) {
    |b.raw| >= 12 && !IsShb(b.raw) && TypeOf(b) == 1
  }

  /** Block `h` is the section header that block `i` stands under. */
  predicate HeaderOf(blocks: seq<Block>, i: nat, h: nat) {
    h < i < |blocks| && IsShb(blocks[h].raw) && forall j :: h < j < i ==> !IsShb(blocks[j].raw)
  }

  /** The section header says that sipnab wrote the section. */
  ghost predicate HeaderSaysSipnab(shb: Block) {
    && |shb.raw| >= 28
    && ParseOptions(shb.endian, shb.raw[24..|shb.raw| - 4], 0).Ok?
    && SaysSipnab(ParseOptions(shb.endian, shb.raw[24..|shb.raw| - 4], 0).value, 4)
  }

  ghost predicate SectionSaysSipnab(blocks: seq<Block>, i: nat) {
    exists h: nat :: HeaderOf(blocks, i, h) && HeaderSaysSipnab(blocks[h])
  }

  /** Sipnab wrote the interface, by its section or by its own description, or the user insists. */
  ghost predicate Chosen(blocks: seq<Block>, i: nat, force: bool)
    requires i < |blocks| && InterfaceOptions(blocks[i]).Ok?
  {
    force || SectionSaysSipnab(blocks, i) || SaysSipnab(InterfaceOptions(blocks[i]).value, 3)
  }

  lemma OptionsAre(b: Block)
    requires |b.raw| >= 12
    ensures InterfaceOptions(b) == ParseOptions(b.endian, OptionArea(b), 0)
  {
    hide ParseOptions, Value;
    if |b.raw| >= 20 {
      assert b.raw[8..|b.raw| - 4][8..] == b.raw[16..|b.raw| - 4];
    } else {
      NoOptions(b.endian);
    }
  }

  lemma NoOptions(e: Endian)
    ensures ParseOptions(e, [], 0) == Ok([])
  {
  }

  lemma HeaderSaysIff(shb: Block)
    ensures WrittenBySipnab(shb) == Ok(true) <==> HeaderSaysSipnab(shb)
  {
    hide ParseOptions, Value, FirstValue, Contains, SaysSipnab;
    if |shb.raw| >= 28 {
      assert shb.raw[8..|shb.raw| - 4][16..] == shb.raw[24..|shb.raw| - 4];
      var opts := ParseOptions(shb.endian, shb.raw[24..|shb.raw| - 4], 0);
      if opts.Ok? {
        SaysIff(opts.value, OPT_SHB_USERAPPL);
      }
    }
  }

  /** The section flag when the rewrite comes to block `i`. */
  function FlagAt(blocks: seq<Block>, i: nat, sipnab: bool): bool
    requires i <= |blocks|
  {
    if i == 0 then sipnab else SipnabAfter(blocks[i - 1], FlagAt(blocks, i - 1, sipnab))
  }

  lemma {:induction false} FlagOfRest(blocks: seq<Block>, i: nat, sipnab: bool)
    requires 1 <= i <= |blocks|
    ensures FlagAt(blocks, i, sipnab) == FlagAt(blocks[1..], i - 1, SipnabAfter(blocks[0], sipnab))
  {
    hide SipnabAfter;
    if i > 1 {
      FlagOfRest(blocks, i - 1, sipnab);
    }
  }

  lemma {:induction false} FlagIff(blocks: seq<Block>, i: nat, n: nat)
    requires n <= i < |blocks| && forall j :: n <= j < i ==> !IsShb(blocks[j].raw)
    ensures FlagAt(blocks, n, false) <==> SectionSaysSipnab(blocks, i)
  {
    hide IsShb, HeaderSaysSipnab, WrittenBySipnab;
    if n > 0 {
      if IsShb(blocks[n - 1].raw) {
        HeaderSaysIff(blocks[n - 1]);
        assert HeaderOf(blocks, i, n - 1);
        assert forall h: nat :: HeaderOf(blocks, i, h) ==> h == n - 1;
      } else {
        FlagIff(blocks, i, n - 1);
      }
    }
  }

  // ---------------------------------------------------------------- the choice

  lemma RepairIdbChanges(b: Block, force: bool, sipnab: bool)
    requires |b.raw| >= 12 && RepairIdb(b, force, sipnab).Ok?
    ensures InterfaceOptions(b).Ok?
    ensures var opts := InterfaceOptions(b).value;
            RepairIdb(b, force, sipnab).value != b <==>
            NoneWith(opts, 9) && (force || sipnab || SaysSipnab(opts, 3))
  {
    hide ParseOptions, Value, Put, FirstValue, Contains, SaysSipnab, InsertTsresol, NoneWith, MakeBlock, Has;
    OptionsAre(b);
    var opts := InterfaceOptions(b).value;
    SaysIff(opts, OPT_IF_DESCRIPTION);
    HasIff(opts, OPT_IF_TSRESOL);
    if Eligible(opts, force, sipnab) && |BodyOf(b)| >= 8 && !Has(opts, OPT_IF_TSRESOL) {
      OptionsInArea(b.endian, OptionArea(b), 0);
      InsertedLength(b.endian, OptionArea(b), opts);
      MadeLength(b.endian, IDB_TYPE, BodyOf(b)[..8] + InsertTsresol(b.endian, OptionArea(b), opts));
    }
  }

  lemma MadeLength(e: Endian, kind: nat, body: bytes)
    ensures |MakeBlock(e, kind, body).raw| == |body| + 12
  {
  }

  lemma {:induction false} RewriteAt(blocks: seq<Block>, force: bool, sipnab: bool, idbs: nat, i: nat)
    requires AllHaveHeaders(blocks) && Rewrite(blocks, force, sipnab, idbs).Ok? && i < |blocks|
    ensures var after := Rewrite(blocks, force, sipnab, idbs).value.blocks;
            |after| == |blocks| &&
            if IsShb(blocks[i].raw) then true
            else if TypeOf(blocks[i]) == IDB_TYPE then
              RepairIdb(blocks[i], force, FlagAt(blocks, i, sipnab)) == Ok(after[i])
            else after[i] == blocks[i]
  {
    hide Rewrite, RepairIdb, HeadNotes, SipnabAfter, IdbsAfter, IsShb, TypeOf, Grown, WrittenBySipnab;
    var b := blocks[0];
    RewriteCons(blocks, force, sipnab, idbs);
    var rest := Rewrite(blocks[1..], force, SipnabAfter(b, sipnab), IdbsAfter(b, idbs));
    RewriteLength(blocks[1..], force, SipnabAfter(b, sipnab), IdbsAfter(b, idbs));
    if i > 0 {
      RewriteAt(blocks[1..], force, SipnabAfter(b, sipnab), IdbsAfter(b, idbs), i - 1);
      FlagOfRest(blocks, i, sipnab);
    }
  }

  lemma {:induction false} RewriteLength(blocks: seq<Block>, force: bool, sipnab: bool, idbs: nat)
    requires AllHaveHeaders(blocks) && Rewrite(blocks, force, sipnab, idbs).Ok?
    ensures |Rewrite(blocks, force, sipnab, idbs).value.blocks| == |blocks|
  {
    hide Rewrite, HeadAfter, HeadNotes, SipnabAfter, IdbsAfter, IsShb;
    if blocks == [] {
      RewriteNothing(force, sipnab, idbs);
    } else {
      var b := blocks[0];
      RewriteCons(blocks, force, sipnab, idbs);
      RewriteLength(blocks[1..], force, SipnabAfter(b, sipnab), IdbsAfter(b, idbs));
    }
  }

  /** Of the blocks that are no section headers a repair changes exactly the interfaces without a
      resolution that are forced, stand in a section sipnab wrote, or are described as sipnab's. */
  lemma RepairedIff(data: bytes, force: bool, i: nat)
    requires Repair(data, force).Ok? && BlocksOf(data).Ok?
    requires i < |BlocksOf(data).value| && !IsShb(BlocksOf(data).value[i].raw)
    ensures BlocksOf(Repair(data, force).value.data).Ok?
    ensures var blocks, after := BlocksOf(data).value, BlocksOf(Repair(data, force).value.data).value;
            && |after| == |blocks|
            && (after[i] != blocks[i] <==>
                && IsInterface(blocks[i]) && InterfaceOptions(blocks[i]).Ok?
                && NoneWith(InterfaceOptions(blocks[i]).value, 9) && Chosen(blocks, i, force))
  {
    hide Repair, ParseBlocks, Rewrite, WellPlaced, IsShb, RepairIdb, InterfaceOptions, NoneWith, SaysSipnab, FlagAt,
         SectionSaysSipnab, Chained, Flatten;
    RepairedFile(data, force);
    BlocksOfRepaired(data, force);
    var blocks := BlocksOf(data).value;
    RewriteAt(blocks, force, false, 0, i);
    FlagIff(blocks, i, i);
    if IsInterface(blocks[i]) {
      RepairIdbChanges(blocks[i], force, FlagAt(blocks, i, false));
    }
  }

  // ---------------------------------------------------------------- the report

  /** How many interfaces stand among the blocks. */
  function Interfaces(blocks: seq<Block>): nat {
    if blocks == [] then 0
    else Interfaces(blocks[..|blocks| - 1]) + if IsInterface(blocks[|blocks| - 1]) then 1 else 0
  }

  lemma {:induction false} InterfacesOfRest(blocks: seq<Block>)
    requires blocks != []
    ensures Interfaces(blocks) == (if IsInterface(blocks[0]) then 1 else 0) + Interfaces(blocks[1..])
  {
    hide IsInterface;
    var n := |blocks| - 1;
    if n > 0 {
      InterfacesOfRest(blocks[..n]);
      assert blocks[..n][1..] == blocks[1..][..n - 1];
    }
  }

  /** What the report says about an interface: a missing resolution is put in if the interface is
      chosen and mentioned otherwise; a resolution other than nanoseconds is mentioned if it is chosen. */
  ghost predicate Fits(note: Note, blocks: seq<Block>, i: nat, force: bool)
    requires i < |blocks| && InterfaceOptions(blocks[i]).Ok?
  {
    var opts := InterfaceOptions(blocks[i]).value;
    match note
    case Inserted(_) => NoneWith(opts, 9) && Chosen(blocks, i, force)
    case Skipped(_) => NoneWith(opts, 9) && !Chosen(blocks, i, force)
    case ForeignResolution(_) =>
      Chosen(blocks, i, force) &&
      exists k: nat :: IsFirst(opts, 9, k) && (opts[k].value == [] || opts[k].value[0] != 9)
  }

  lemma IdbNotesFit(blocks: seq<Block>, i: nat, force: bool, note: Note)
    requires i < |blocks| && |blocks[i].raw| >= 12 && InterfaceOptions(blocks[i]).Ok?
    ensures ParseOptions(blocks[i].endian, OptionArea(blocks[i]), 0).Ok?
    ensures note in IdbNotes(blocks[i], force, SectionSaysSipnab(blocks, i), note.idb) <==> Fits(note, blocks, i, force)
  {
    hide ParseOptions, Value, Contains, SaysSipnab, NoneWith, SectionSaysSipnab, Has, FirstWith;
    OptionsAre(blocks[i]);
    var opts := InterfaceOptions(blocks[i]).value;
    SaysIff(opts, OPT_IF_DESCRIPTION);
    HasIff(opts, OPT_IF_TSRESOL);
    var k := FirstWith(opts, OPT_IF_TSRESOL);
    FirstIs(opts, OPT_IF_TSRESOL, k);
    forall j: nat | IsFirst(opts, OPT_IF_TSRESOL, j)
      ensures j == k
    {
      FirstIs(opts, OPT_IF_TSRESOL, j);
    }
    HasFirst(opts);
  }

  lemma HasFirst(opts: seq<Opt>)
    ensures Has(opts, OPT_IF_TSRESOL) <==> FirstWith(opts, OPT_IF_TSRESOL) < |opts|
  {
  }

  /** Block `i` is interface number `n`. */
  predicate IsNumber(blocks: seq<Block>, i: nat, n: nat) {
    i < |blocks| && IsInterface(blocks[i]) && n == Interfaces(blocks[..i + 1])
  }

  lemma NumberOfRest(blocks: seq<Block>, i: nat, n: nat)
    requires 0 < i < |blocks|
    ensures IsNumber(blocks, i, n) <==>
            n >= Interfaces(blocks[..1]) && IsNumber(blocks[1..], i - 1, n - Interfaces(blocks[..1]))
  {
    hide IsInterface;
    InterfacesOfRest(blocks[..i + 1]);
    assert blocks[..i + 1][1..] == blocks[1..][..i];
    assert blocks[..1] == [blocks[0]] && [blocks[0]][..0] == [];
  }

  /** The note about interface `n` and the section flag it is written under. */
  ghost predicate NotedAt(blocks: seq<Block>, force: bool, sipnab: bool, idbs: nat, note: Note, i: nat)
    requires AllHaveHeaders(blocks)
  {
    && note.idb >= idbs && IsNumber(blocks, i, note.idb - idbs)
    && ParseOptions(blocks[i].endian, OptionArea(blocks[i]), 0).Ok?
    && note in IdbNotes(blocks[i], force, FlagAt(blocks, i, sipnab), note.idb)
  }

  lemma NotedAtHead(blocks: seq<Block>, force: bool, sipnab: bool, idbs: nat, note: Note)
    requires blocks != [] && AllHaveHeaders(blocks)
    requires IsInterface(blocks[0]) ==> RepairIdb(blocks[0], force, sipnab).Ok?
    ensures NotedAt(blocks, force, sipnab, idbs, note, 0) <==> note in HeadNotes(blocks[0], force, sipnab, idbs)
  {
    hide ParseOptions, Value, TypeOf, Eligible, Has, IsShb, OptionArea, InsertInto;
    var b := blocks[0];
    assert blocks[..1] == [b] && [b][..0] == [];
    assert Interfaces(blocks[..1]) == if IsInterface(b) then 1 else 0;
    assert FlagAt(blocks, 0, sipnab) == sipnab;
  }

  lemma NotedAtRest(blocks: seq<Block>, force: bool, sipnab: bool, idbs: nat, note: Note, i: nat)
    requires AllHaveHeaders(blocks) && 0 < i < |blocks|
    ensures NotedAt(blocks, force, sipnab, idbs, note, i) <==>
            NotedAt(blocks[1..], force, SipnabAfter(blocks[0], sipnab), IdbsAfter(blocks[0], idbs), note, i - 1)
  {
    hide ParseOptions, IdbNotes, SipnabAfter, IsNumber, TypeOf, IsShb;
    FlagOfRest(blocks, i, sipnab);
    assert blocks[..1] == [blocks[0]] && [blocks[0]][..0] == [];
    if note.idb >= idbs {
      NumberOfRest(blocks, i, note.idb - idbs);
    }
  }

  lemma {:induction false} RewriteNotes(blocks: seq<Block>, force: bool, sipnab: bool, idbs: nat, note: Note)
    requires AllHaveHeaders(blocks) && Rewrite(blocks, force, sipnab, idbs).Ok?
    ensures note in Rewrite(blocks, force, sipnab, idbs).value.notes <==>
            exists i: nat :: NotedAt(blocks, force, sipnab, idbs, note, i)
  {
    hide Rewrite, RepairIdb, HeadNotes, SipnabAfter, IdbsAfter, NotedAt;
    if blocks == [] {
      RewriteNothing(force, sipnab, idbs);
      NothingNoted(force, sipnab, idbs, note);
    } else {
      var b := blocks[0];
      var flag, n := SipnabAfter(b, sipnab), IdbsAfter(b, idbs);
      RewriteCons(blocks, force, sipnab, idbs);
      RewriteNotes(blocks[1..], force, flag, n, note);
      NotedAtHead(blocks, force, sipnab, idbs, note);
      NotedSomewhere(blocks, force, sipnab, idbs, note);
    }
  }

  lemma NothingNoted(force: bool, sipnab: bool, idbs: nat, note: Note)
    ensures forall i: nat :: !NotedAt([], force, sipnab, idbs, note, i)
  {
  }

  lemma NotedSomewhere(blocks: seq<Block>, force: bool, sipnab: bool, idbs: nat, note: Note)
    requires AllHaveHeaders(blocks) && blocks != []
    ensures (exists i: nat :: NotedAt(blocks, force, sipnab, idbs, note, i)) <==>
            || NotedAt(blocks, force, sipnab, idbs, note, 0)
            || exists i: nat ::
                 NotedAt(blocks[1..], force, SipnabAfter(blocks[0], sipnab), IdbsAfter(blocks[0], idbs), note, i)
  {
    var flag, n := SipnabAfter(blocks[0], sipnab), IdbsAfter(blocks[0], idbs);
    forall i: nat | NotedAt(blocks, force, sipnab, idbs, note, i) && i > 0
      ensures NotedAt(blocks[1..], force, flag, n, note, i - 1)
    {
      NotedAtRest(blocks, force, sipnab, idbs, note, i);
    }
    forall i: nat | NotedAt(blocks[1..], force, flag, n, note, i)
      ensures NotedAt(blocks, force, sipnab, idbs, note, i + 1)
    {
      NotedAtRest(blocks, force, sipnab, idbs, note, i + 1);
    }
  }

  /** The lines of the report are exactly those that fit, each interface going by its number. */
  lemma RepairNotes(data: bytes, force: bool, note: Note)
    requires Repair(data, force).Ok? && BlocksOf(data).Ok?
    ensures var blocks := BlocksOf(data).value;
            note in Repair(data, force).value.notes <==>
            exists i: nat ::
              IsNumber(blocks, i, note.idb) && InterfaceOptions(blocks[i]).Ok? && Fits(note, blocks, i, force)
  {
    hide Repair, ParseBlocks, Rewrite, IdbNotes, Fits, FlagAt, InterfaceOptions, IsInterface, Interfaces, Chained,
         Flatten, IsShb;
    RepairedFile(data, force);
    var blocks := BlocksOf(data).value;
    RewriteNotes(blocks, force, false, 0, note);
    forall i: nat | i < |blocks|
      ensures NotedAt(blocks, force, false, 0, note, i) <==>
              IsNumber(blocks, i, note.idb) && InterfaceOptions(blocks[i]).Ok? && Fits(note, blocks, i, force)
    {
      FlagIff(blocks, i, i);
      OptionsAre(blocks[i]);
      if InterfaceOptions(blocks[i]).Ok? {
        IdbNotesFit(blocks, i, force, note);
      }
    }
  }
}
