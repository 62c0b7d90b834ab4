/** Which files are repaired at all, and how options lie in an option area. */
module PcapngAccepts {
  import opened Results
  import opened Bytes
  import opened Pcapng
  import opened PcapngRepair
  import opened PcapngTheorems
  import opened PcapngChoice

  // ---------------------------------------------------------------- option areas

  /** An option as it is written: a value and the bytes that fill it up to a multiple of four. */
  datatype Written = Written(code: nat, value: bytes, padding: bytes)

  predicate WellPadded(w: Written) {
    && w.code < 0x1_0000 && |w.value| < 0x1_0000
    && |w.padding| < 4 && (|w.value| + |w.padding|) % 4 == 0
  }

  function Laid(e: Endian, w: Written): bytes {
    Put(e, 2, w.code) + Put(e, 2, |w.value|) + w.value + w.padding
  }

  function LaidAll(e: Endian, ws: seq<Written>): bytes {
    if ws == [] then [] else Laid(e, ws[0]) + LaidAll(e, ws[1..])
  }

  /** The area is these options: up to the first end marker, with anything behind it, or to its end. */
  predicate Lists(e: Endian, area: bytes, ws: seq<Written>, rest: bytes) {
    && area == LaidAll(e, ws) + rest
    && (forall w :: w in ws ==> WellPadded(w))
    && (forall i :: 0 <= i < |ws| - 1 ==> ws[i].code != 0)
    && (rest != [] ==> ws != [] && ws[|ws| - 1].code == 0)
  }

  lemma LaidReads(e: Endian, w: Written, rest: bytes)
    requires WellPadded(w)
    ensures var area := Laid(e, w) + rest;
            && OptionHere(e, area, 0) == Ok(Opt(w.code, w.value, 0, |Laid(e, w)|))
            && area[|Laid(e, w)|..] == rest
  {
    hide Value, Put;
    Capacities();
    ValueOfPut(e, 2, w.code);
    ValueOfPut(e, 2, |w.value|);
    var area := Laid(e, w) + rest;
    assert area[0..2] == Put(e, 2, w.code);
    assert area[2..4] == Put(e, 2, |w.value|);
    assert area[4..4 + |w.value|] == w.value;
    assert Padded(|w.value|) == |w.value| + |w.padding|;
  }

  /** Moves the spans of the options by `shift` bytes. */
  function Moved(opts: seq<Opt>, shift: nat): (r: seq<Opt>)
    ensures |r| == |opts|
    ensures forall i :: 0 <= i < |opts| ==>
              r[i] == Opt(opts[i].code, opts[i].value, opts[i].start + shift, opts[i].end + shift)
  {
    seq(|opts|, i requires 0 <= i < |opts| =>
      Opt(opts[i].code, opts[i].value, opts[i].start + shift, opts[i].end + shift))
  }

  lemma HereInSuffix(e: Endian, area: bytes, pos: nat, shift: nat)
    requires shift <= |area|
    ensures OptionHere(e, area[shift..], pos).Ok? == OptionHere(e, area, pos + shift).Ok?
    ensures OptionHere(e, area[shift..], pos).Ok? ==>
              var o := OptionHere(e, area[shift..], pos).value;
              OptionHere(e, area, pos + shift) == Ok(Opt(o.code, o.value, o.start + shift, o.end + shift))
  {
    hide Value;
    var rest := area[shift..];
    if pos + 4 <= |rest| {
      assert rest[pos..pos + 2] == area[pos + shift..pos + shift + 2];
      assert rest[pos + 2..pos + 4] == area[pos + shift + 2..pos + shift + 4];
      var len := Field(e, rest, pos + 2, 2);
      if pos + 4 + len <= |rest| {
        assert rest[pos + 4..pos + 4 + len] == area[pos + shift + 4..pos + shift + 4 + len];
      }
    }
  }

  lemma {:induction false} ParseInSuffix(e: Endian, area: bytes, pos: nat, shift: nat)
    requires shift <= |area|
    ensures ParseOptions(e, area[shift..], pos).Ok? == ParseOptions(e, area, pos + shift).Ok?
    ensures ParseOptions(e, area[shift..], pos).Ok? ==>
              ParseOptions(e, area, pos + shift).value == Moved(ParseOptions(e, area[shift..], pos).value, shift)
    decreases |area| - pos
  {
    hide OptionHere;
    if pos + shift < |area| {
      HereInSuffix(e, area, pos, shift);
      var here := OptionHere(e, area[shift..], pos);
      if here.Ok? && here.value.code != OPT_ENDOFOPT {
        ParseInSuffix(e, area, here.value.end, shift);
      }
    }
  }

  /** The options read are the options written, in order. */
  predicate Same(opts: seq<Opt>, ws: seq<Written>) {
    |opts| == |ws| && forall i :: 0 <= i < |ws| ==> opts[i].code == ws[i].code && opts[i].value == ws[i].value
  }

  lemma ListTail(e: Endian, area: bytes, ws: seq<Written>, rest: bytes)
    requires Lists(e, area, ws, rest) && ws != []
    ensures WellPadded(ws[0]) && |Laid(e, ws[0])| <= |area|
    ensures area == Laid(e, ws[0]) + area[|Laid(e, ws[0])|..]
    ensures if ws[0].code == 0 then |ws| == 1 else Lists(e, area[|Laid(e, ws[0])|..], ws[1..], rest)
  {
    hide WellPadded, Laid;
    assert area == Laid(e, ws[0]) + (LaidAll(e, ws[1..]) + rest);
    assert area[|Laid(e, ws[0])|..] == LaidAll(e, ws[1..]) + rest;
  }

  lemma {:induction false} ListedReads(e: Endian, area: bytes, ws: seq<Written>, rest: bytes)
    requires Lists(e, area, ws, rest)
    ensures ParseOptions(e, area, 0).Ok? && Same(ParseOptions(e, area, 0).value, ws)
    decreases |ws|
  {
    hide *;
    if ws == [] {
      NothingListed(e, area, rest);
    } else {
      var w, n := ws[0], |Laid(e, ws[0])|;
      ListTail(e, area, ws, rest);
      LaidReads(e, w, area[n..]);
      if w.code == 0 {
        ParseEnds(e, area, w.value, n);
        SameCons(Opt(0, w.value, 0, n), [], ws);
        assert [Opt(0, w.value, 0, n)] + [] == [Opt(0, w.value, 0, n)];
      } else {
        ParseInSuffix(e, area, 0, n);
        ListedReads(e, area[n..], ws[1..], rest);
        ParseAfter(e, area, w.code, w.value, n);
        SameMoved(ParseOptions(e, area[n..], 0).value, n, ws[1..]);
        SameCons(Opt(w.code, w.value, 0, n), ParseOptions(e, area, n).value, ws);
      }
    }
  }

  lemma NothingListed(e: Endian, area: bytes, rest: bytes)
    requires Lists(e, area, [], rest)
    ensures ParseOptions(e, area, 0) == Ok([]) && Same([], [])
  {
    assert LaidAll(e, []) == [];
  }

  lemma SameMoved(opts: seq<Opt>, shift: nat, ws: seq<Written>)
    requires Same(opts, ws)
    ensures Same(Moved(opts, shift), ws)
  {
  }

  lemma SameCons(o: Opt, opts: seq<Opt>, ws: seq<Written>)
    requires ws != [] && o.code == ws[0].code && o.value == ws[0].value
    requires (opts == [] && |ws| == 1) || Same(opts, ws[1..])
    ensures Same([o] + opts, ws)
  {
    forall i | 0 < i < |ws|
      ensures opts[i - 1].code == ws[i].code && opts[i - 1].value == ws[i].value
    {
      assert ws[i] == ws[1..][i - 1];
    }
  }

  lemma ParseAfter(e: Endian, area: bytes, code: nat, value: bytes, n: nat)
    requires OptionHere(e, area, 0) == Ok(Opt(code, value, 0, n)) && code != 0 && ParseOptions(e, area, n).Ok?
    ensures ParseOptions(e, area, 0) == Ok([Opt(code, value, 0, n)] + ParseOptions(e, area, n).value)
  {
    hide OptionHere;
  }

  lemma ParseEnds(e: Endian, area: bytes, value: bytes, n: nat)
    requires OptionHere(e, area, 0) == Ok(Opt(0, value, 0, n))
    ensures ParseOptions(e, area, 0) == Ok([Opt(0, value, 0, n)])
  {
    hide OptionHere;
  }

  lemma HereIsLaid(e: Endian, area: bytes) returns (w: Written)
    requires OptionHere(e, area, 0).Ok?
    ensures WellPadded(w) && |Laid(e, w)| <= |area| && area[..|Laid(e, w)|] == Laid(e, w)
    ensures OptionHere(e, area, 0) == Ok(Opt(w.code, w.value, 0, |Laid(e, w)|))
  {
    hide Value, Put;
    Capacities();
    var o := OptionHere(e, area, 0).value;
    PutOfValue(e, area[0..2]);
    PutOfValue(e, area[2..4]);
    w := Written(o.code, o.value, area[4 + |o.value|..o.end]);
    assert area[..o.end] == area[0..2] + area[2..4] + area[4..4 + |o.value|] + area[4 + |o.value|..o.end];
  }

  lemma {:induction false} ReadIsListed(e: Endian, area: bytes) returns (ws: seq<Written>, rest: bytes)
    requires ParseOptions(e, area, 0).Ok?
    ensures Lists(e, area, ws, rest)
    decreases |area|
  {
    hide OptionHere, Laid, WellPadded;
    if area == [] {
      ws, rest := [], [];
    } else {
      var w := HereIsLaid(e, area);
      var n := |Laid(e, w)|;
      assert area == Laid(e, w) + area[n..];
      if w.code == 0 {
        ws, rest := [w], area[n..];
        assert [w][1..] == [];
        assert LaidAll(e, [w]) == Laid(e, w) + LaidAll(e, []) == Laid(e, w);
      } else {
        ParseInSuffix(e, area, 0, n);
        ws, rest := ReadIsListed(e, area[n..]);
        ListCons(e, area, w, ws, rest);
        ws := [w] + ws;
      }
    }
  }

  lemma ListCons(e: Endian, area: bytes, w: Written, ws: seq<Written>, rest: bytes)
    requires WellPadded(w) && w.code != 0 && |Laid(e, w)| <= |area| && area[..|Laid(e, w)|] == Laid(e, w)
    requires Lists(e, area[|Laid(e, w)|..], ws, rest)
    ensures Lists(e, area, [w] + ws, rest)
  {
    hide WellPadded, Laid;
    var all := [w] + ws;
    assert all[1..] == ws;
    assert area == Laid(e, w) + (LaidAll(e, ws) + rest);
    assert forall i :: 0 <= i < |all| - 1 ==> all[i] == if i == 0 then w else ws[i - 1];
  }

  /** An option area is readable exactly when it is options written one after another, each filled up to
      a multiple of four, up to an end marker or to its end; and what is read is what is written. */
  lemma OptionsIff(e: Endian, area: bytes)
    ensures ParseOptions(e, area, 0).Ok? <==> exists ws, rest :: Lists(e, area, ws, rest)
    ensures forall ws, rest :: Lists(e, area, ws, rest) ==>
              ParseOptions(e, area, 0).Ok? && Same(ParseOptions(e, area, 0).value, ws)
  {
    hide Lists, ParseOptions, Same;
    if ParseOptions(e, area, 0).Ok? {
      var ws, rest := ReadIsListed(e, area);
    }
    forall ws, rest | Lists(e, area, ws, rest)
      ensures ParseOptions(e, area, 0).Ok? && Same(ParseOptions(e, area, 0).value, ws)
    {
      ListedReads(e, area, ws, rest);
    }
  }

  // ---------------------------------------------------------------- accepted files

  /** The interface can be read, and if the option goes into it there is room. */
  ghost predicate InterfaceAccepted(blocks: seq<Block>, i: nat, force: bool)
    requires i < |blocks|
  {
    && InterfaceOptions(blocks[i]).Ok?
    && (Chosen(blocks, i, force) ==> |blocks[i].raw| >= 20)
    && (Added(blocks, i, force) > 0 ==> |blocks[i].raw| + Added(blocks, i, force) < 0x1_0000_0000)
  }

  /** How many bytes a repair puts into block `i`: the option, and an end marker where there is none. */
  ghost function Added(blocks: seq<Block>, i: nat, force: bool): nat
    requires i < |blocks|
  {
    if !IsInterface(blocks[i]) || InterfaceOptions(blocks[i]).Refused? then 0
    else
      var opts := InterfaceOptions(blocks[i]).value;
      if !NoneWith(opts, 9) || !Chosen(blocks, i, force) then 0 else if NoneWith(opts, 0) then 12 else 8
  }

  /** How many bytes are put in from block `i` up to the next section header. */
  ghost function AddedFrom(blocks: seq<Block>, i: nat, force: bool): nat
    requires i <= |blocks|
    decreases |blocks| - i
  {
    if i == |blocks| || IsShb(blocks[i].raw) then 0 else Added(blocks, i, force) + AddedFrom(blocks, i + 1, force)
  }

  /** The section header is whole, its options can be read, and a declared length has room to grow. */
  ghost predicate HeaderAccepted(blocks: seq<Block>, i: nat, force: bool)
    requires i < |blocks|
  {
    && |blocks[i].raw| >= 28
    && ParseOptions(blocks[i].endian, blocks[i].raw[24..|blocks[i].raw| - 4], 0).Ok?
    && var declared, growth := DeclaredLength(blocks[i]), AddedFrom(blocks, i + 1, force);
       declared == UNSPECIFIED_SECTION_LEN || growth == 0 || declared + growth < 0x1_0000_0000_0000_0000
  }

  ghost predicate BlockAccepted(blocks: seq<Block>, i: nat, force: bool)
    requires i < |blocks|
  {
    if IsShb(blocks[i].raw) then HeaderAccepted(blocks, i, force)
    else IsInterface(blocks[i]) ==> InterfaceAccepted(blocks, i, force)
  }

  lemma RepairIdbAccepts(blocks: seq<Block>, i: nat, force: bool, sipnab: bool)
    requires i < |blocks| && IsInterface(blocks[i]) && (sipnab <==> SectionSaysSipnab(blocks, i))
    ensures RepairIdb(blocks[i], force, sipnab).Ok? <==> InterfaceAccepted(blocks, i, force)
    ensures RepairIdb(blocks[i], force, sipnab).Ok? ==>
              |RepairIdb(blocks[i], force, sipnab).value.raw| == |blocks[i].raw| + Added(blocks, i, force)
  {
    hide ParseOptions, Value, Put, FirstValue, Contains, SaysSipnab, InsertTsresol, NoneWith, MakeBlock, Has, TypeOf,
         SectionSaysSipnab, InterfaceOptions, IsShb;
    var b := blocks[i];
    OptionsAre(b);
    if InterfaceOptions(b).Ok? {
      var opts := InterfaceOptions(b).value;
      SaysIff(opts, OPT_IF_DESCRIPTION);
      HasIff(opts, OPT_IF_TSRESOL);
      HasIff(opts, OPT_ENDOFOPT);
      OptionsInArea(b.endian, OptionArea(b), 0);
      InsertedLength(b.endian, OptionArea(b), opts);
      assert Eligible(opts, force, sipnab) <==> Chosen(blocks, i, force);
      if |b.raw| >= 20 {
        MadeLength(b.endian, IDB_TYPE, BodyOf(b)[..8] + InsertTsresol(b.endian, OptionArea(b), opts));
      }
    }
  }

  lemma HeaderAccepts(blocks: seq<Block>, i: nat, force: bool)
    requires i < |blocks| && |blocks[i].raw| >= 12
    ensures HeaderAccepted(blocks, i, force) <==>
            WrittenBySipnab(blocks[i]).Ok? && Grown(blocks[i], AddedFrom(blocks, i + 1, force)).Ok?
  {
    hide ParseOptions, Value, Contains, FirstValue, AddedFrom;
    var raw := blocks[i].raw;
    if |raw| >= 28 {
      assert raw[8..|raw| - 4][16..] == raw[24..|raw| - 4];
    }
  }

  lemma {:induction false} RewriteAccepts(blocks: seq<Block>, force: bool, k: nat, idbs: nat)
    requires AllHaveHeaders(blocks) && k <= |blocks|
    ensures var r := Rewrite(blocks[k..], force, FlagAt(blocks, k, false), idbs);
            && (r.Ok? <==> forall i :: k <= i < |blocks| ==> BlockAccepted(blocks, i, force))
            && (r.Ok? ==> r.value.growth == AddedFrom(blocks, k, force))
    decreases |blocks| - k
  {
    hide Rewrite, HeadAfter, HeadNotes, SipnabAfter, IdbsAfter, IsShb, BlockAccepted, Added;
    if k == |blocks| {
      RewriteNothing(force, FlagAt(blocks, k, false), idbs);
    } else {
      var b, flag := blocks[k], FlagAt(blocks, k, false);
      assert blocks[k..][0] == b && blocks[k..][1..] == blocks[k + 1..];
      RewriteCons(blocks[k..], force, flag, idbs);
      RewriteAccepts(blocks, force, k + 1, IdbsAfter(b, idbs));
      HeadAccepts(blocks, force, k);
    }
  }

  lemma HeadAccepts(blocks: seq<Block>, force: bool, k: nat)
    requires k < |blocks| && |blocks[k].raw| >= 12
    ensures var r := HeadAfter(blocks[k], force, FlagAt(blocks, k, false), AddedFrom(blocks, k + 1, force));
            && (r.Ok? <==> BlockAccepted(blocks, k, force))
            && (r.Ok? && !IsShb(blocks[k].raw) ==> |r.value.raw| == |blocks[k].raw| + Added(blocks, k, force))
  {
    hide IsShb, RepairIdb, Grown, WrittenBySipnab, AddedFrom, HeaderAccepted, InterfaceAccepted, FlagAt, TypeOf,
         SectionSaysSipnab, InterfaceOptions, NoneWith, Chosen;
    FlagIff(blocks, k, k);
    HeaderAccepts(blocks, k, force);
    if IsInterface(blocks[k]) {
      RepairIdbAccepts(blocks, k, force, FlagAt(blocks, k, false));
    }
  }

  /** A file is repaired exactly when it is a stream of framed blocks that starts with a section header
      and every block of it is accepted. */
  lemma RepairAcceptsIff(data: bytes, force: bool)
    ensures Repair(data, force).Ok? <==>
            && |data| >= 28 && IsShb(data) && BlocksOf(data).Ok?
            && forall i: nat :: i < |BlocksOf(data).value| ==> BlockAccepted(BlocksOf(data).value, i, force)
  {
    hide ParseBlocks, Rewrite, IsShb, BlockAccepted;
    if BlocksOf(data).Ok? {
      ParsedBlocksHaveHeaders(data, Refused);
      var blocks := BlocksOf(data).value;
      RewriteAccepts(blocks, force, 0, 0);
      assert blocks[0..] == blocks;
    }
  }

  lemma HeaderIsLong(b: Block, current: Result<Endian>)
    requires WellPlaced(b, current) && IsShb(b.raw)
    ensures |b.raw| >= 16
  {
    hide Value;
    assert Field(b.endian, b.raw, 8, 4) == BYTE_ORDER_MAGIC;
  }

  lemma {:induction false} HeadersAreLong(blocks: seq<Block>, current: Result<Endian>)
    requires Chained(blocks, current)
    ensures forall b :: b in blocks && IsShb(b.raw) ==> |b.raw| >= 16
  {
    hide IsShb, WellPlaced;
    if blocks != [] {
      HeadersAreLong(blocks[1..], Ok(blocks[0].endian));
      if IsShb(blocks[0].raw) {
        HeaderIsLong(blocks[0], current);
      }
    }
  }

  /** A stream is cut into blocks exactly when it is framed blocks one after another. */
  lemma BlocksIff(data: bytes, blocks: seq<Block>)
    ensures BlocksOf(data) == Ok(blocks) <==> Chained(blocks, Refused) && Flatten(blocks) == data
  {
    hide IsShb, WellPlaced, HeadBlock, ParseBlocks;
    if BlocksOf(data).Ok? {
      ParsedBlocksAreChained(data, Refused);
    }
    if Chained(blocks, Refused) && Flatten(blocks) == data {
      HeadersAreLong(blocks, Refused);
      ChainedBlocksReparse(blocks, Refused);
    }
  }
}
