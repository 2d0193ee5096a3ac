/** Memory read through GDB: the hex codec, the assembly of blocks into one vector,
    and the way from a reply line to that vector. */
module Memory {
  import opened Numbers
  import opened Bits

  // ---- Hex text ----

  /** The lambda `to_int`: 0 for anything that is no hex digit. */
  function ToInt(c: char): (n: nat)
    ensures n < 16
  {
    if DigitValue(c) < 16 then DigitValue(c) else 0
  }

  /** The bytes of a hex text; an odd last character is ignored. */
  function HexBytes(text: string): (bytes: seq<Byte>)
    ensures |bytes| == |text| / 2
  {
    seq(|text| / 2, i requires 0 <= i < |text| / 2 => 16 * ToInt(text[2 * i]) + ToInt(text[2 * i + 1]))
  }

  /** The decoding loop: the vector is sized first, then filled through an iterator.
      The nibbles do not overlap, so `|=` adds. */
  method DecodeHex(text: string) returns (contents: array<Byte>)
    ensures fresh(contents) && contents[..] == HexBytes(text)
  {
    contents := new Byte[|text| / 2];
    var itr := 0;
    for k := 0 to contents.Length
      invariant itr == 2 * k
      invariant contents[..k] == HexBytes(text)[..k]
    {
      var c: Byte := 16 * ToInt(text[itr]);
      itr := itr + 1;
      c := c + ToInt(text[itr]);
      itr := itr + 1;
      contents[k] := c;
    }
  }

  /** What the digits count, upper-case like lower-case. */
  lemma HexDigits()
    ensures ToInt('0') == 0 && ToInt('1') == 1 && ToInt('2') == 2 && ToInt('3') == 3 && ToInt('4') == 4
    ensures ToInt('5') == 5 && ToInt('6') == 6 && ToInt('7') == 7 && ToInt('8') == 8 && ToInt('9') == 9
    ensures ToInt('a') == ToInt('A') == 10 && ToInt('b') == ToInt('B') == 11 && ToInt('c') == ToInt('C') == 12
    ensures ToInt('d') == ToInt('D') == 13 && ToInt('e') == ToInt('E') == 14 && ToInt('f') == ToInt('F') == 15
  {
  }

  /** Every other character counts 0. */
  lemma OtherCharacters(c: char)
    requires c !in {'1', '2', '3', '4', '5', '6', '7', '8', '9'}
    requires c !in {'a', 'b', 'c', 'd', 'e', 'f', 'A', 'B', 'C', 'D', 'E', 'F'}
    ensures ToInt(c) == 0
  {
  }

  /** Every byte comes from its own two characters, the higher half first; an odd last
      character is ignored. */
  lemma HexBytesAt(text: string, i: nat)
    requires 2 * i + 1 < |text|
    ensures i < |HexBytes(text)| && HexBytes(text)[i] / 16 == ToInt(text[2 * i])
            && HexBytes(text)[i] % 16 == ToInt(text[2 * i + 1])
  {
  }

  function HexChar(n: nat): (c: char)
    requires n < 16
    ensures DigitValue(c) == n
  {
    if n < 10 then ('0' as int + n) as char else ('a' as int + n - 10) as char
  }

  function HexText(bytes: seq<Byte>): string {
    if bytes == [] then ""
    else HexText(bytes[..|bytes| - 1])
         + [HexChar(bytes[|bytes| - 1] / 16), HexChar(bytes[|bytes| - 1] % 16)]
  }

  /** The encoding loop of data_write_memory_bytes. */
  method EncodeHex(contents: seq<Byte>) returns (ss: string)
    ensures ss == HexText(contents)
  {
    ss := "";
    for i := 0 to |contents|
      invariant ss == HexText(contents[..i])
    {
      ss := ss + [HexChar(contents[i] / 16), HexChar(contents[i] % 16)];
      assert contents[..i + 1][..i] == contents[..i];
    }
    assert contents[..|contents|] == contents;
  }

  /** What is written as hex is read back as the same bytes. */
  lemma {:induction false} HexRoundTrip(bytes: seq<Byte>)
    ensures HexBytes(HexText(bytes)) == bytes && |HexText(bytes)| == 2 * |bytes|
  {
    if bytes == [] {
    } else {
      var n := |bytes| - 1;
      HexRoundTrip(bytes[..n]);
      var front, text := HexText(bytes[..n]), HexText(bytes);
      forall i | 0 <= i < |bytes| ensures HexBytes(text)[i] == bytes[i] {
        if i < n {
          assert text[2 * i] == front[2 * i] && text[2 * i + 1] == front[2 * i + 1];
          assert HexBytes(front)[i] == bytes[..n][i];
        }
      }
    }
  }

  // ---- Blocks ----

  /** A block of the reply, the fields read_memory uses. */
  datatype Block = Block(offset: nat, contents: seq<Byte>)

  function End(b: Block): nat {
    b.offset + |b.contents|
  }

  predicate Covers(b: Block, i: nat) {
    b.offset <= i < End(b)
  }

  /** std::vector::resize: cuts, or appends zeros. */
  function Resize(vec: seq<Byte>, size: nat): (r: seq<Byte>)
    ensures |r| == size
  {
    if size <= |vec| then vec[..size] else vec + seq(size - |vec|, _ => 0)
  }

  function Place(vec: seq<Byte>, d: Block): (r: seq<Byte>)
    ensures |r| == End(d)
  {
    Resize(vec, End(d))[..d.offset] + d.contents
  }

  function Assemble(blocks: seq<Block>): seq<Byte> {
    if blocks == [] then []
    else Place(Assemble(blocks[..|blocks| - 1]), blocks[|blocks| - 1])
  }

  /** The loop of frame_impl::read_memory; std::copy is the slice assignment. */
  method ReadMemory(data: seq<Block>) returns (vec: seq<Byte>)
    ensures vec == Assemble(data)
  {
    vec := [];
    for k := 0 to |data|
      invariant vec == Assemble(data[..k])
    {
      var d := data[k];
      var size := d.offset + |d.contents|;
      vec := Resize(vec, size);
      vec := vec[..d.offset] + d.contents;
      assert data[..k + 1][..k] == data[..k];
    }
    assert data[..|data|] == data;
  }

  /** Block `k` is the last one to touch index `i`: it covers it, and no later block
      covers it or ends before it. */
  predicate LastAt(blocks: seq<Block>, k: nat, i: nat) {
    k < |blocks| && Covers(blocks[k], i)
    && forall j | k < j < |blocks| :: End(blocks[j]) > i && !Covers(blocks[j], i)
  }

  /** Index `i` belongs to the vector but to no block that still counts. */
  predicate Gap(blocks: seq<Block>, i: nat) {
    blocks != [] && i < End(blocks[|blocks| - 1])
    && forall k | 0 <= k < |blocks| :: !LastAt(blocks, k, i)
  }

  lemma PlaceAt(vec: seq<Byte>, d: Block, i: nat)
    requires i < End(d)
    ensures Place(vec, d)[i]
         == if d.offset <= i then d.contents[i - d.offset] else if i < |vec| then vec[i] else 0
  {
  }

  lemma AssembleLength(blocks: seq<Block>)
    ensures |Assemble(blocks)| == if blocks == [] then 0 else End(blocks[|blocks| - 1])
  {
  }

  lemma LastAtFront(blocks: seq<Block>, k: nat, i: nat)
    requires blocks != [] && k < |blocks| - 1
    ensures var n := |blocks| - 1;
            LastAt(blocks, k, i)
            <==> LastAt(blocks[..n], k, i) && End(blocks[n]) > i && !Covers(blocks[n], i)
  {
    var n := |blocks| - 1;
    assert forall j | 0 <= j < n :: blocks[..n][j] == blocks[j];
  }

  lemma {:induction false} LastWins(blocks: seq<Block>, k: nat, i: nat)
    requires LastAt(blocks, k, i)
    ensures i < |Assemble(blocks)| && Assemble(blocks)[i] == blocks[k].contents[i - blocks[k].offset]
  {
    var n := |blocks| - 1;
    PlaceAt(Assemble(blocks[..n]), blocks[n], i);
    if k < n {
      LastAtFront(blocks, k, i);
      LastWins(blocks[..n], k, i);
    }
  }

  lemma {:induction false} GapIsZero(blocks: seq<Block>, i: nat)
    requires Gap(blocks, i)
    ensures i < |Assemble(blocks)| && Assemble(blocks)[i] == 0
  {
    var n := |blocks| - 1;
    var front := blocks[..n];
    assert !LastAt(blocks, n, i);
    PlaceAt(Assemble(front), blocks[n], i);
    AssembleLength(front);
    if i < |Assemble(front)| {
      forall k | 0 <= k < n ensures !LastAt(front, k, i) { LastAtFront(blocks, k, i); }
      GapIsZero(front, i);
    }
  }

  /** The vector exactly, for blocks in any order: as long as the last block reaches;
      at each index the byte of the last block to touch it, and 0 where none does. */
  lemma AssembleExact(blocks: seq<Block>, i: nat)
    ensures |Assemble(blocks)| == if blocks == [] then 0 else End(blocks[|blocks| - 1])
    ensures forall k: nat | LastAt(blocks, k, i) ::
              i < |Assemble(blocks)| && Assemble(blocks)[i] == blocks[k].contents[i - blocks[k].offset]
    ensures Gap(blocks, i) ==> i < |Assemble(blocks)| && Assemble(blocks)[i] == 0
  {
    AssembleLength(blocks);
    forall k: nat | LastAt(blocks, k, i)
      ensures i < |Assemble(blocks)| && Assemble(blocks)[i] == blocks[k].contents[i - blocks[k].offset]
    {
      LastWins(blocks, k, i);
    }
    if Gap(blocks, i) { GapIsZero(blocks, i); }
  }

  /** Some block covers index `i`. */
  predicate Covered(blocks: seq<Block>, i: nat) {
    exists k | 0 <= k < |blocks| :: Covers(blocks[k], i)
  }

  lemma CoveredFront(blocks: seq<Block>, i: nat)
    requires blocks != []
    ensures var n := |blocks| - 1;
            Covered(blocks, i) <==> Covered(blocks[..n], i) || Covers(blocks[n], i)
  {
    var n := |blocks| - 1;
    assert forall k | 0 <= k < n :: blocks[..n][k] == blocks[k];
  }

  /** The blocks are pieces of the memory `mem`, each reaching at least as far as the
      one before; ascending blocks that do not overlap do. */
  predicate PiecesOf(mem: nat -> Byte, blocks: seq<Block>) {
    && (forall k | 0 <= k < |blocks| :: PieceOf(mem, blocks[k]))
    && (forall j, k | 0 <= j < k < |blocks| :: End(blocks[j]) <= End(blocks[k]))
  }

  predicate PieceOf(mem: nat -> Byte, b: Block) {
    forall t | 0 <= t < |b.contents| :: b.contents[t] == mem(b.offset + t)
  }

  lemma PiecesFront(mem: nat -> Byte, blocks: seq<Block>, i: nat)
    requires blocks != [] && PiecesOf(mem, blocks)
    ensures PiecesOf(mem, blocks[..|blocks| - 1]) && PieceOf(mem, blocks[|blocks| - 1])
    ensures Covered(blocks[..|blocks| - 1], i) ==> i < End(blocks[|blocks| - 1])
  {
    var n := |blocks| - 1;
    assert forall k | 0 <= k < n :: blocks[..n][k] == blocks[k];
  }

  lemma PieceByte(mem: nat -> Byte, b: Block, i: nat)
    requires PieceOf(mem, b) && Covers(b, i)
    ensures b.contents[i - b.offset] == mem(i)
  {
    assert b.contents[i - b.offset] == mem(b.offset + (i - b.offset));
  }

  /** Pieces of a memory give that memory back: its byte at every index some block
      covers, 0 in every gap, and nothing beyond the last block. */
  lemma {:induction false} PiecesAssemble(mem: nat -> Byte, blocks: seq<Block>, i: nat)
    requires PiecesOf(mem, blocks)
    ensures var vec := Assemble(blocks);
            && |vec| == (if blocks == [] then 0 else End(blocks[|blocks| - 1]))
            && (i < |vec| ==> vec[i] == if Covered(blocks, i) then mem(i) else 0)
            && (i >= |vec| ==> !Covered(blocks, i))
  {
    AssembleLength(blocks);
    if blocks == [] {
    } else {
      var n := |blocks| - 1;
      PiecesFront(mem, blocks, i);
      PiecesAssemble(mem, blocks[..n], i);
      CoveredFront(blocks, i);
      if i < End(blocks[n]) {
        PlaceAt(Assemble(blocks[..n]), blocks[n], i);
        if Covers(blocks[n], i) { PieceByte(mem, blocks[n], i); }
      }
    }
  }
}
