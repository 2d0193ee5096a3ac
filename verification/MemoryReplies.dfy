/** From the text of a reply to `-data-read-memory-bytes` to the bytes that
    `frame_impl::read_memory` returns. */
module MemoryReplies {
  import opened Text
  import opened CStrings
  import opened MiValues
  import opened MiRecords
  import opened MiRecordLaws
  import opened MiResultRecords
  import opened MiLookup
  import opened MiReplies
  import opened Numbers
  import opened Bits
  import opened Memory

  /** parse_result<read_memory_bytes>: `begin` is read as hex, `offset` and `end` as
      decimal. */
  function ParseBlock(rs: seq<Result>): Try<Block> {
    var _ :- FindU64(rs, "begin", 16);
    var offset :- FindU64(rs, "offset", 10);
    var _ :- FindU64(rs, "end", 10);
    var text :- FindString(rs, "contents");
    Ok(Block(offset, HexBytes(text)))
  }

  function ParseBlocks(vs: seq<Value>): Try<seq<Block>> {
    if vs == [] then Ok([])
    else
      var tuple :- AsTuple(vs[0]);
      var b :- ParseBlock(tuple);
      var more :- ParseBlocks(vs[1..]);
      Ok([b] + more)
  }

  /** data_read_memory_bytes and read_memory, on the line of the reply. */
  function ReadMemoryReply(token: nat, line: string): Try<seq<Byte>> {
    match ExpectRecord(token, line, "")
    case TokenTooLarge => Thrown(BadNumber)
    case Rejected => Thrown(NotAccepted)
    case Accepted(rc) => ReadMemoryRecord(rc)
  }

  function ReadMemoryRecord(rc: ResultOutput): Try<seq<Byte>> {
    if rc.resultClass != Done then Thrown(UnexpectedClass)
    else
      var memory :- Find(rc.results, "memory");
      var vs :- AsValues(memory);
      var blocks :- ParseBlocks(vs);
      Ok(Assemble(blocks))
  }

  /** A block as GDB writes it; the three numbers are text. */
  datatype RawBlock = RawBlock(begin: string, offset: string, end: string, contents: seq<Byte>)

  function BlockFields(b: RawBlock): seq<Result> {
    [Result("begin", Str(b.begin)), Result("offset", Str(b.offset)),
     Result("end", Str(b.end)), Result("contents", Str(HexText(b.contents)))]
  }

  function BlockValues(blocks: seq<RawBlock>): seq<Value> {
    if blocks == [] then [] else [Tup(BlockFields(blocks[0]))] + BlockValues(blocks[1..])
  }

  function MemoryResult(blocks: seq<RawBlock>): Result {
    Result("memory", Lst(Values(BlockValues(blocks))))
  }

  /** The reply line. */
  function Reply(token: nat, blocks: seq<RawBlock>, end: string): string {
    Decimal(token) + ("^" + ("done" + (PrintItems([Named(MemoryResult(blocks))]) + end)))
  }

  lemma {:induction false} HexIsBare(bytes: seq<Byte>)
    ensures Bare(HexText(bytes))
  {
    if bytes == [] {
    } else {
      HexIsBare(bytes[..|bytes| - 1]);
    }
  }

  /** Numbers the code can read, in the bases it reads them. */
  predicate Readable(b: RawBlock) {
    && Bare(b.begin) && Bare(b.offset) && Bare(b.end)
    && Stoull(b.begin, 16).Parsed? && Stoull(b.offset, 10).Parsed? && Stoull(b.end, 10).Parsed?
  }

  predicate AllReadable(blocks: seq<RawBlock>) {
    forall i | 0 <= i < |blocks| :: Readable(blocks[i])
  }

  function Decoded(b: RawBlock): Block
    requires Readable(b)
  {
    Block(Stoull(b.offset, 10).value, b.contents)
  }

  function AllDecoded(blocks: seq<RawBlock>): (decoded: seq<Block>)
    requires AllReadable(blocks)
    ensures |decoded| == |blocks| && forall i | 0 <= i < |blocks| :: decoded[i] == Decoded(blocks[i])
  {
    seq(|blocks|, i requires 0 <= i < |blocks| => Decoded(blocks[i]))
  }

  lemma FieldsAreEscapable(b: RawBlock)
    requires Readable(b)
    ensures Escapable(b.begin) && Escapable(b.offset) && Escapable(b.end) && Escapable(HexText(b.contents))
  {
    BareIsEscapable(b.begin);
    BareIsEscapable(b.offset);
    BareIsEscapable(b.end);
    HexIsBare(b.contents);
    BareIsEscapable(HexText(b.contents));
  }

  lemma {:induction false} BlockIsRobust(b: RawBlock)
    requires Readable(b)
    ensures Robust(Tup(BlockFields(b)))
  {
    FieldsAreEscapable(b);
    FourRobust(Result("begin", Str(b.begin)), Result("offset", Str(b.offset)),
               Result("end", Str(b.end)), Result("contents", Str(HexText(b.contents))));
  }

  lemma FourRobust(a: Result, b: Result, c: Result, d: Result)
    requires ProperName(a.variable) && ProperName(b.variable) && ProperName(c.variable) && ProperName(d.variable)
    requires Robust(a.value) && Robust(b.value) && Robust(c.value) && Robust(d.value)
    ensures RobustResults([a, b, c, d])
  {
    RobustCons(d, []);
    RobustCons(c, [d] + []);
    RobustCons(b, [c] + ([d] + []));
    RobustCons(a, [b] + ([c] + ([d] + [])));
    assert [a, b, c, d] == [a] + ([b] + ([c] + ([d] + [])));
  }

  lemma {:induction false} BlocksAreRobust(blocks: seq<RawBlock>)
    requires AllReadable(blocks)
    ensures RobustValues(BlockValues(blocks)) && Robust(Lst(Values(BlockValues(blocks))))
  {
    if blocks == [] {
    } else {
      BlockIsRobust(blocks[0]);
      BlocksAreRobust(blocks[1..]);
    }
  }

  lemma FieldsFound(b: RawBlock)
    ensures var rs := BlockFields(b);
            && FindIf(rs, "begin") == Some(Str(b.begin)) && FindIf(rs, "offset") == Some(Str(b.offset))
            && FindIf(rs, "end") == Some(Str(b.end))
            && FindIf(rs, "contents") == Some(Str(HexText(b.contents)))
  {
    var rs := BlockFields(b);
    assert rs == [rs[0]] + ([rs[1]] + ([rs[2]] + ([rs[3]] + [])));
    forall id: string
      ensures FindIf(rs, id)
           == if id == "begin" then Some(rs[0].value) else if id == "offset" then Some(rs[1].value)
              else if id == "end" then Some(rs[2].value) else if id == "contents" then Some(rs[3].value)
              else None
    {
      FindFirst(rs[0], [rs[1]] + ([rs[2]] + ([rs[3]] + [])), id);
      FindFirst(rs[1], [rs[2]] + ([rs[3]] + []), id);
      FindFirst(rs[2], [rs[3]] + [], id);
      FindFirst(rs[3], [], id);
    }
  }

  lemma BlockParses(b: RawBlock)
    requires Readable(b)
    ensures ParseBlock(BlockFields(b)) == Ok(Decoded(b))
  {
    FieldsFound(b);
    HexRoundTrip(b.contents);
  }

  lemma {:induction false} ParseCons(fields: seq<Result>, vs: seq<Value>)
    requires ParseBlock(fields).Ok? && ParseBlocks(vs).Ok?
    ensures ParseBlocks([Tup(fields)] + vs) == Ok([ParseBlock(fields).value] + ParseBlocks(vs).value)
  {
    assert ([Tup(fields)] + vs)[1..] == vs;
  }

  lemma DecodedCons(blocks: seq<RawBlock>, decoded: seq<Block>, tail: seq<Block>)
    requires |decoded| == |blocks| > 0 && |tail| == |blocks| - 1
    requires forall i | 0 <= i < |tail| :: tail[i] == decoded[i + 1]
    ensures decoded == [decoded[0]] + tail
  {
  }

  lemma {:induction false} BlocksParse(blocks: seq<RawBlock>)
    requires AllReadable(blocks)
    ensures ParseBlocks(BlockValues(blocks)) == Ok(AllDecoded(blocks))
  {
    if blocks == [] {
      assert AllDecoded(blocks) == [];
    } else {
      var decoded, tail := AllDecoded(blocks), AllDecoded(blocks[1..]);
      forall i | 0 <= i < |tail| ensures tail[i] == decoded[i + 1] {
        assert blocks[1..][i] == blocks[i + 1];
      }
      DecodedCons(blocks, decoded, tail);
      BlockParses(blocks[0]);
      BlocksParse(blocks[1..]);
      ParseCons(BlockFields(blocks[0]), BlockValues(blocks[1..]));
      assert BlockValues(blocks) == [Tup(BlockFields(blocks[0]))] + BlockValues(blocks[1..]);
    }
  }

  /** Memory read end to end, for every reply: the vector is the assembly of the
      blocks as the code reads their offsets. */
  lemma {:induction false} ReplyAssembles(token: nat, blocks: seq<RawBlock>, end: string)
    requires token <= MAX_U64 && AllReadable(blocks) && AtEnd(end)
    ensures ReadMemoryReply(token, Reply(token, blocks, end)) == Ok(Assemble(AllDecoded(blocks)))
  {
    ReplyIsRead(token, blocks, end);
    RecordAssembles(blocks);
  }

  lemma {:induction false} RecordAssembles(blocks: seq<RawBlock>)
    requires AllReadable(blocks)
    ensures ReadMemoryRecord(ResultOutput(Done, [MemoryResult(blocks)])) == Ok(Assemble(AllDecoded(blocks)))
  {
    FindFirst(MemoryResult(blocks), [], "memory");
    assert [MemoryResult(blocks)] + [] == [MemoryResult(blocks)];
    BlocksParse(blocks);
  }

  lemma ReplyIsRead(token: nat, blocks: seq<RawBlock>, end: string)
    requires token <= MAX_U64 && AllReadable(blocks) && AtEnd(end)
    ensures ExpectRecord(token, Reply(token, blocks, end), "")
         == Accepted(ResultOutput(Done, [MemoryResult(blocks)]))
  {
    var items := [Named(MemoryResult(blocks))];
    BlocksAreRobust(blocks);
    assert items[1..] == [];
    assert RecordElements(items, end) == [MemoryResult(blocks)];
    NumberOfDecimal(token);
    RobustRecordRead(Decimal(token), Done, items, end, "");
    ExpectIsOpen(token, Reply(token, blocks, end), "");
  }

  /** If GDB writes the offsets in decimal, pieces of a memory come back as that
      memory: its bytes where a block covers them, 0 in the gaps. */
  lemma {:induction false} ReplyIsMemory(token: nat, mem: nat -> Byte, blocks: seq<RawBlock>, offsets: seq<nat>,
        end: string, i: nat)
    requires token <= MAX_U64 && AllReadable(blocks) && AtEnd(end) && |offsets| == |blocks|
    requires forall k | 0 <= k < |blocks| :: offsets[k] <= MAX_U64 && blocks[k].offset == Decimal(offsets[k])
    requires PiecesOf(mem, Placed(blocks, offsets))
    ensures var m := ReadMemoryReply(token, Reply(token, blocks, end));
            var placed := Placed(blocks, offsets);
            && m.Ok? && |m.value| == (if placed == [] then 0 else End(placed[|placed| - 1]))
            && (i < |m.value| ==>
                  m.value[i] == if Covered(placed, i) then mem(i) else 0)
  {
    ReplyAssembles(token, blocks, end);
    DecodedIsPlaced(blocks, offsets);
    PiecesAssemble(mem, Placed(blocks, offsets), i);
  }

  lemma DecodedIsPlaced(blocks: seq<RawBlock>, offsets: seq<nat>)
    requires AllReadable(blocks) && |offsets| == |blocks|
    requires forall k | 0 <= k < |blocks| :: offsets[k] <= MAX_U64 && blocks[k].offset == Decimal(offsets[k])
    ensures AllDecoded(blocks) == Placed(blocks, offsets)
  {
    forall k | 0 <= k < |blocks| ensures AllDecoded(blocks)[k] == Placed(blocks, offsets)[k] {
      DecimalIsRead(offsets[k]);
    }
  }

  function Placed(blocks: seq<RawBlock>, offsets: seq<nat>): seq<Block>
    requires |offsets| == |blocks|
  {
    seq(|blocks|, k requires 0 <= k < |blocks| => Block(offsets[k], blocks[k].contents))
  }

  lemma DecimalIsRead(n: nat)
    requires n <= MAX_U64
    ensures Stoull(Decimal(n), 10) == Parsed(n)
  {
    NumberOfDecimal(n);
    assert Decimal(n) + "" == Decimal(n);
    ScanDigits(Decimal(n), "", 10);
  }

  /** An offset written with "0x" is read as 0, whatever digits follow. */
  lemma HexOffsetIsZero(digits: string)
    ensures Stoull("0x" + digits, 10) == Parsed(0)
  {
    var t := "x" + digits;
    assert "0x" + digits == "0" + t;
    assert "0"[..0] == "" && Number("0", 10) == 0;
    ScanDigits("0", t, 10);
  }

  /** So with such offsets every block lands at index 0 and read_memory returns the
      last block alone, wherever the blocks belong. */
  lemma {:induction false} HexOffsetsKeepLastBlock(token: nat, blocks: seq<RawBlock>, end: string)
    requires token <= MAX_U64 && AllReadable(blocks) && AtEnd(end) && blocks != []
    requires forall k | 0 <= k < |blocks| :: StartsWith(blocks[k].offset, "0x")
    ensures ReadMemoryReply(token, Reply(token, blocks, end)) == Ok(blocks[|blocks| - 1].contents)
  {
    ReplyAssembles(token, blocks, end);
    LastAtZero(AllDecoded(blocks), blocks[|blocks| - 1]);
  }

  /** Exactly when that is still right: blocks whose offsets GDB writes with "0x" are
      assembled where they belong if and only if the last of them belongs at 0. */
  lemma {:induction false} HexOffsetsExact(token: nat, blocks: seq<RawBlock>, offsets: seq<nat>, end: string)
    requires token <= MAX_U64 && AllReadable(blocks) && AtEnd(end) && blocks != [] && InHex(blocks, offsets)
    ensures ReadMemoryReply(token, Reply(token, blocks, end)) == Ok(Assemble(Placed(blocks, offsets)))
       <==> offsets[|offsets| - 1] == 0
  {
    assert forall k | 0 <= k < |blocks| :: IsHex(blocks[k].offset, offsets[k]);
    HexOffsetsKeepLastBlock(token, blocks, end);
    LastAlone(blocks, offsets);
  }

  /** Nothing but the last block is left exactly when it goes to index 0. */
  lemma LastAlone(blocks: seq<RawBlock>, offsets: seq<nat>)
    requires |offsets| == |blocks| > 0
    ensures Assemble(Placed(blocks, offsets)) == blocks[|blocks| - 1].contents <==> offsets[|offsets| - 1] == 0
  {
    var placed := Placed(blocks, offsets);
    assert placed[|placed| - 1] == Block(offsets[|offsets| - 1], blocks[|blocks| - 1].contents);
    PlaceAtZero(Assemble(placed[..|placed| - 1]), blocks[|blocks| - 1].contents);
  }

  /** The numbers the offsets stand for, written in hex. */
  predicate InHex(blocks: seq<RawBlock>, offsets: seq<nat>) {
    |offsets| == |blocks| && forall k | 0 <= k < |blocks| :: IsHex(blocks[k].offset, offsets[k])
  }

  predicate IsHex(text: string, n: nat) {
    StartsWith(text, "0x") && AllDigits(text[2..], 16) && Number(text[2..], 16) == n
  }

  lemma {:induction false} LastAtZero(decoded: seq<Block>, last: RawBlock)
    requires Readable(last) && StartsWith(last.offset, "0x")
    requires decoded != [] && decoded[|decoded| - 1] == Decoded(last)
    ensures Assemble(decoded) == last.contents
  {
    assert last.offset == "0x" + last.offset[2..];
    HexOffsetIsZero(last.offset[2..]);
    PlaceAtZero(Assemble(decoded[..|decoded| - 1]), last.contents);
  }

  lemma PlaceAtZero(vec: seq<Byte>, contents: seq<Byte>)
    ensures Place(vec, Block(0, contents)) == contents
  {
  }

  // ---- Other replies ----

  /** A reply of any other class throws, whatever its results; and so does one with another
      token. */
  lemma {:induction false} OtherReplyThrows(token: nat, other: nat, c: ResultClass, items: seq<Item>, end: string)
    requires token <= MAX_U64 && other <= MAX_U64 && ReadableRecord(items, end) && AtEnd(end)
    ensures var line := Decimal(other) + ("^" + (ClassText(c) + (PrintItems(items) + end)));
            ReadMemoryReply(token, line)
            == if other != token then Thrown(NotAccepted)
               else if c != Done then Thrown(UnexpectedClass)
               else ReadMemoryRecord(ResultOutput(Done, Vector(items, end)))
  {
    NumberOfDecimal(other);
    RecordRead(Decimal(other), c, items, end, "");
    ExpectIsOpen(token, Decimal(other) + ("^" + (ClassText(c) + (PrintItems(items) + end))), "");
    DigitsEnd(Decimal(other), "^" + (ClassText(c) + (PrintItems(items) + end)), 10);
    LeadingToken(Decimal(other), "^" + (ClassText(c) + (PrintItems(items) + end)), token);
  }

  lemma LeadingToken(digits: string, body: string, token: nat)
    requires digits != "" && AllDigits(digits, 10) && Number(digits, 10) <= MAX_U64
    requires body != "" && !IsDigit(body[0], 10)
    ensures Number(digits, 10) != token ==> ExpectRecord(token, digits + body, "") == Rejected
  {
    DigitsEnd(digits, body, 10);
    assert (digits + body)[..|digits|] == digits;
  }

  /** A block that can be read; `begin` and `end` are read although nothing uses them. */
  predicate IsBlock(v: Value) {
    && v.Tup?
    && HoldsU64(v.fields, "begin", 16) && HoldsU64(v.fields, "offset", 10) && HoldsU64(v.fields, "end", 10)
    && HoldsText(v.fields, "contents")
  }

  /** The block read from a value. */
  predicate ReadFrom(b: Block, v: Value) {
    && IsBlock(v)
    && Stoull(TextAt(v.fields, "offset"), 10) == Parsed(b.offset)
    && b.contents == HexBytes(TextAt(v.fields, "contents"))
  }

  lemma {:induction false} BlockExact(v: Value)
    ensures IsBlock(v) <==> v.Tup? && ParseBlock(v.fields).Ok?
    ensures IsBlock(v) ==> ReadFrom(ParseBlock(v.fields).value, v)
  {
    if v.Tup? {
      var rs := v.fields;
      assert FindU64(rs, "begin", 16).Ok? <==> HoldsU64(rs, "begin", 16);
      assert FindU64(rs, "offset", 10).Ok? <==> HoldsU64(rs, "offset", 10);
      assert FindU64(rs, "end", 10).Ok? <==> HoldsU64(rs, "end", 10);
      assert FindString(rs, "contents").Ok? <==> HoldsText(rs, "contents");
    }
  }

  lemma {:induction false} FirstBlock(vs: seq<Value>)
    requires vs != []
    ensures ParseBlocks(vs).Ok? <==> IsBlock(vs[0]) && ParseBlocks(vs[1..]).Ok?
    ensures ParseBlocks(vs).Ok? ==>
              && ParseBlocks(vs).value != [] && ReadFrom(ParseBlocks(vs).value[0], vs[0])
              && ParseBlocks(vs).value[1..] == ParseBlocks(vs[1..]).value
  {
    BlockExact(vs[0]);
  }

  predicate AllBlocks(vs: seq<Value>) {
    vs != [] ==> IsBlock(vs[0]) && AllBlocks(vs[1..])
  }

  predicate AreBlocks(v: Value) {
    v.Lst? && v.list.Values? && AllBlocks(v.list.vs)
  }

  /** One block after the other. */
  predicate AllReadFrom(blocks: seq<Block>, vs: seq<Value>) {
    if vs == [] then blocks == []
    else blocks != [] && ReadFrom(blocks[0], vs[0]) && AllReadFrom(blocks[1..], vs[1..])
  }

  lemma {:induction false} BlocksExact(vs: seq<Value>)
    ensures ParseBlocks(vs).Ok? <==> AllBlocks(vs)
    ensures ParseBlocks(vs).Ok? ==> AllReadFrom(ParseBlocks(vs).value, vs)
  {
    if vs == [] {
    } else {
      FirstBlock(vs);
      BlocksExact(vs[1..]);
    }
  }

  /** Exactly which replies are accepted: "done", with a list of readable blocks; and what
      they yield. */
  lemma {:induction false} MemoryExact(rc: ResultOutput) returns (blocks: seq<Block>)
    ensures ReadMemoryRecord(rc).Ok?
        <==> rc.resultClass == Done
             && FindIf(rc.results, "memory").Some? && AreBlocks(FindIf(rc.results, "memory").value)
    ensures ReadMemoryRecord(rc).Ok? ==>
              && AllReadFrom(blocks, FindIf(rc.results, "memory").value.list.vs)
              && ReadMemoryRecord(rc).value == Assemble(blocks)
  {
    blocks := [];
    var v := FindIf(rc.results, "memory");
    if v.Some? && v.value.Lst? && v.value.list.Values? {
      BlocksExact(v.value.list.vs);
      if ParseBlocks(v.value.list.vs).Ok? { blocks := ParseBlocks(v.value.list.vs).value; }
    }
  }
}
