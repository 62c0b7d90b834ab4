/** The pcapng format as `repair_pcapng_tsresol.py` reads it: options, blocks and the
    framing that turns a byte stream into a sequence of blocks. */
module Pcapng {
  import opened Results
  import opened Bytes
  import Seqs

  const SHB_BYTES: bytes := [0x0A, 0x0D, 0x0D, 0x0A]
  const SHB_TYPE := 0x0A0D0D0A
  const IDB_TYPE := 0x00000001
  const BYTE_ORDER_MAGIC := 0x1A2B3C4D
  const UNSPECIFIED_SECTION_LEN := 0xFFFF_FFFF_FFFF_FFFF

  const OPT_ENDOFOPT := 0
  const OPT_IF_DESCRIPTION := 3
  const OPT_SHB_USERAPPL := 4
  const OPT_IF_TSRESOL := 9

  const SIPNAB: bytes := [0x73, 0x69, 0x70, 0x6E, 0x61, 0x62]

  // ---------------------------------------------------------------- options

  /** One option: its code, its value without padding, and the span of the option area it fills. */
  datatype Opt = Opt(code: nat, value: bytes, start: nat, end: nat)

  function Padded(n: nat): (r: nat)
    ensures n <= r < n + 4 && r % 4 == 0
  {
    (n + 3) / 4 * 4
  }

  /** The option whose header starts at offset `pos`. */
  function OptionHere(e: Endian, area: bytes, pos: nat): (r: Result<Opt>)
    ensures r.Ok? ==> r.value.start == pos < r.value.end <= |area|
  {
    if pos + 4 > |area| then Refused
    else
      var code, len := Field(e, area, pos, 2), Field(e, area, pos + 2, 2);
      var end := pos + 4 + Padded(len);
      if end > |area| then Refused else Ok(Opt(code, area[pos + 4..pos + 4 + len], pos, end))
  }

  /** The options from offset `pos` on: up to the end of the area or through the first
      end-of-options marker, whichever comes first. */
  function ParseOptions(e: Endian, area: bytes, pos: nat): (r: Result<seq<Opt>>)
    decreases |area| - pos
  {
    if pos >= |area| then Ok([])
    else
      var opt :- OptionHere(e, area, pos);
      if opt.code == OPT_ENDOFOPT then Ok([opt])
      else
        var rest :- ParseOptions(e, area, opt.end);
        Ok([opt] + rest)
  }

  function Prepend(out: seq<Opt>, rest: Result<seq<Opt>>): Result<seq<Opt>> {
    if rest.Ok? then Ok(out + rest.value) else Refused
  }

  lemma OneMoreOption(e: Endian, area: bytes, pos: nat, opt: Opt, out: seq<Opt>)
    requires OptionHere(e, area, pos) == Ok(opt)
    ensures Prepend(out, ParseOptions(e, area, pos)) ==
            if opt.code == OPT_ENDOFOPT then Ok(out + [opt]) else Prepend(out + [opt], ParseOptions(e, area, opt.end))
  {
    hide OptionHere;
    var rest := ParseOptions(e, area, opt.end);
    assert rest.Ok? ==> out + ([opt] + rest.value) == (out + [opt]) + rest.value;
  }

  /** `_options`: the scan with an advancing cursor. */
  method Options(e: Endian, area: bytes) returns (r: Result<seq<Opt>>)
    ensures r == ParseOptions(e, area, 0)
  {
    hide Value, ParseOptions;
    var out: seq<Opt> := [];
    var pos := 0;
    assert forall all: seq<Opt> :: out + all == all;
    while pos < |area|
      invariant Prepend(out, ParseOptions(e, area, pos)) == ParseOptions(e, area, 0)
    {
      if pos + 4 > |area| {
        NoOptionHere(e, area, pos);
        return Refused;
      }
      var code, len := Field(e, area, pos, 2), Field(e, area, pos + 2, 2);
      var end := pos + 4 + Padded(len);
      if pos + 4 + len > |area| || end > |area| {
        NoOptionHere(e, area, pos);
        return Refused;
      }
      var opt := Opt(code, area[pos + 4..pos + 4 + len], pos, end);
      OneMoreOption(e, area, pos, opt, out);
      out := out + [opt];
      pos := end;
      if code == OPT_ENDOFOPT {
        return Ok(out);
      }
    }
    NoOptionHere(e, area, pos);
    assert out + [] == out;
    return Ok(out);
  }

  lemma NoOptionHere(e: Endian, area: bytes, pos: nat)
    requires OptionHere(e, area, pos).Refused?
    ensures ParseOptions(e, area, pos) == if pos >= |area| then Ok([]) else Refused
  {
  }

  /** The position of the first option with this code, or the number of options. */
  function FirstWith(opts: seq<Opt>, code: nat): (k: nat)
    ensures k <= |opts|
    ensures k < |opts| ==> opts[k].code == code
    ensures forall j :: 0 <= j < k ==> opts[j].code != code
  {
    if opts == [] || opts[0].code == code then 0 else 1 + FirstWith(opts[1..], code)
  }

  predicate Has(opts: seq<Opt>, code: nat) {
    FirstWith(opts, code) < |opts|
  }

  /** The value of the first option with this code, empty when there is none. */
  function FirstValue(opts: seq<Opt>, code: nat): bytes {
    var k := FirstWith(opts, code);
    if k < |opts| then opts[k].value else []
  }

  // ---------------------------------------------------------------- blocks

  /** A whole block, header and trailer included, with the byte order it is written in. */
  datatype Block = Block(endian: Endian, raw: bytes)

  predicate IsShb(raw: bytes) {
    |raw| >= 4 && raw[..4] == SHB_BYTES
  }

  /** The byte order a Section Header Block announces. */
  function AnnouncedEndian(raw: bytes): (r: Result<Endian>)
    requires |raw| >= 12
  {
    if Field(Little, raw, 8, 4) == BYTE_ORDER_MAGIC then Ok(Little)
    else if Field(Big, raw, 8, 4) == BYTE_ORDER_MAGIC then Ok(Big)
    else Refused
  }

  /** The block's length stands before and after its body and is a multiple of four. */
  predicate Framed(e: Endian, raw: bytes) {
    && |raw| >= 12
    && |raw| % 4 == 0
    && Field(e, raw, 4, 4) == |raw|
    && Field(e, raw, |raw| - 4, 4) == |raw|
  }

  function TypeOf(b: Block): nat
    requires |b.raw| >= 4
  {
    Field(b.endian, b.raw, 0, 4)
  }

  function BodyOf(b: Block): bytes
    requires |b.raw| >= 12
  {
    b.raw[8..|b.raw| - 4]
  }

  /** The byte order the block at the head of `data` is read in: its own if it opens a section. */
  function EndianAt(data: bytes, current: Result<Endian>): (r: Result<Endian>)
    requires |data| >= 8
  {
    if IsShb(data) then (if |data| < 16 then Refused else AnnouncedEndian(data)) else current
  }

  /** Cuts the first block off a byte stream; `current` is the byte order of the section in progress. */
  function HeadBlock(data: bytes, current: Result<Endian>): (r: Result<Block>)
    ensures r.Ok? ==> 12 <= |r.value.raw| <= |data| && r.value.raw == data[..|r.value.raw|]
  {
    if |data| < 8 then Refused
    else
      var e :- EndianAt(data, current);
      var total := Field(e, data, 4, 4);
      if total < 12 || total % 4 != 0 || total > |data| || Field(e, data, total - 4, 4) != total then Refused
      else Ok(Block(e, data[..total]))
  }

  /** Cuts a byte stream into blocks. */
  function ParseBlocks(data: bytes, current: Result<Endian>): (r: Result<seq<Block>>)
    decreases |data|
  {
    if data == [] then Ok([])
    else
      var b :- HeadBlock(data, current);
      var rest :- ParseBlocks(data[|b.raw|..], Ok(b.endian));
      Ok([b] + rest)
  }

  function Flatten(blocks: seq<Block>): bytes {
    if blocks == [] then [] else blocks[0].raw + Flatten(blocks[1..])
  }

  /** What a block cut out of a stream satisfies: it is framed in its section's byte order, and a
      section header announces that order itself. */
  predicate WellPlaced(b: Block, current: Result<Endian>) {
    && Framed(b.endian, b.raw)
    && (if IsShb(b.raw) then AnnouncedEndian(b.raw) == Ok(b.endian) else current == Ok(b.endian))
  }

  predicate Chained(blocks: seq<Block>, current: Result<Endian>) {
    blocks == [] || (WellPlaced(blocks[0], current) && Chained(blocks[1..], Ok(blocks[0].endian)))
  }

  lemma HeadBlockIsWellPlaced(data: bytes, current: Result<Endian>)
    requires HeadBlock(data, current).Ok?
    ensures WellPlaced(HeadBlock(data, current).value, current)
  {
    hide Value;
    var raw := HeadBlock(data, current).value.raw;
    var n := |raw|;
    assert raw == data[0..n];
    Seqs.SliceOfSlice(data, 0, n, 0, 4);
    Seqs.SliceOfSlice(data, 0, n, 4, 8);
    Seqs.SliceOfSlice(data, 0, n, 8, 12);
    Seqs.SliceOfSlice(data, 0, n, n - 4, n);
    assert raw[0..4] == raw[..4] && data[0..4] == data[..4];
  }

  lemma WellPlacedBlockIsHead(b: Block, rest: bytes, current: Result<Endian>)
    requires WellPlaced(b, current)
    requires IsShb(b.raw) ==> |b.raw| >= 16
    ensures HeadBlock(b.raw + rest, current) == Ok(b)
  {
    hide Value;
    var data, n := b.raw + rest, |b.raw|;
    assert data[0..n] == b.raw == data[..n];
    Seqs.SliceOfSlice(data, 0, n, 0, 4);
    Seqs.SliceOfSlice(data, 0, n, 4, 8);
    Seqs.SliceOfSlice(data, 0, n, 8, 12);
    Seqs.SliceOfSlice(data, 0, n, n - 4, n);
    assert b.raw[0..4] == b.raw[..4] && data[0..4] == data[..4];
  }

  /** Every block a stream is cut into is framed, and the blocks are the stream. */
  lemma {:induction false} ParsedBlocksAreChained(data: bytes, current: Result<Endian>)
    requires ParseBlocks(data, current).Ok?
    ensures Chained(ParseBlocks(data, current).value, current)
    ensures Flatten(ParseBlocks(data, current).value) == data
    decreases |data|
  {
    hide HeadBlock, WellPlaced;
    if data != [] {
      var b := HeadBlock(data, current).value;
      HeadBlockIsWellPlaced(data, current);
      ParsedBlocksAreChained(data[|b.raw|..], Ok(b.endian));
      assert ParseBlocks(data, current).value[1..] == ParseBlocks(data[|b.raw|..], Ok(b.endian)).value;
    }
  }

  /** The converse: a chained sequence of blocks is what its own bytes are cut into. */
  lemma {:induction false} ChainedBlocksReparse(blocks: seq<Block>, current: Result<Endian>)
    requires Chained(blocks, current)
    requires forall b :: b in blocks && IsShb(b.raw) ==> |b.raw| >= 16
    ensures ParseBlocks(Flatten(blocks), current) == Ok(blocks)
  {
    hide HeadBlock;
    if blocks != [] {
      var b, rest := blocks[0], Flatten(blocks[1..]);
      WellPlacedBlockIsHead(b, rest, current);
      assert (b.raw + rest)[|b.raw|..] == rest;
      ChainedBlocksReparse(blocks[1..], Ok(b.endian));
      assert [b] + blocks[1..] == blocks;
    }
  }
}
