/**
 * The fixed-length text patcher for Netsoftware B3D files: the Cyrillic table R
 * and its inverse, the Latin table L, the scanner that finds the runs of table
 * bytes, the layout of the translation dump, and the patch that writes the
 * translated runs back in place without changing the file length.
 */
module B3dText {
  import opened Wrappers
  import opened Bytes
  import opened PyStrings
  import opened SeqFacts

  // ---------------------------------------------------------------------------
  // Tables

  /** The bytes that R knows: 0x3E..0x5E (the Cyrillic capitals) and 0xFF (a space). */
  predicate IsRunByte(b: byte) {
    0x3E <= b <= 0x5E || b == 0xFF
  }

  /** The bytes on which a block may begin: 0x40..0x5E (from В onwards). */
  predicate IsStartByte(b: byte) {
    0x40 <= b <= 0x5E
  }

  /** R: 0x3E..0x43 are А..Е, 0x44 is Ё, 0x45..0x5E are Ж..Я, and 0xFF is a space. */
  function RChar(b: byte): (c: char)
    requires IsRunByte(b)
    ensures b == 0xFF <==> c == ' '
    ensures b != 0xFF ==> c == '\U{0401}' || '\U{0410}' <= c <= '\U{042F}'
  {
    if b == 0xFF then ' '
    else if b < 0x44 then (0x410 + (b - 0x3E)) as char
    else if b == 0x44 then '\U{0401}'
    else (0x416 + (b - 0x45)) as char
  }

  /** R_REV: the byte whose R character is `c`, if there is one. */
  function RRev(c: char): (r: Option<byte>)
    ensures r.Some? ==> IsRunByte(r.value) && RChar(r.value) == c
  {
    if c == ' ' then Some(0xFF)
    else if '\U{0410}' <= c <= '\U{0415}' then Some(c as int - 0x410 + 0x3E)
    else if c == '\U{0401}' then Some(0x44)
    else if '\U{0416}' <= c <= '\U{042F}' then Some(c as int - 0x416 + 0x45)
    else None
  }

  /** R_REV undoes R on every byte R knows. */
  lemma RRevOfRChar(b: byte)
    requires IsRunByte(b)
    ensures RRev(RChar(b)) == Some(b)
  {
  }

  /** The 34 entries of R have 34 different characters, so R_REV loses nothing. */
  lemma RCharInjective(b1: byte, b2: byte)
    requires IsRunByte(b1) && IsRunByte(b2) && RChar(b1) == RChar(b2)
    ensures b1 == b2
  {
    RRevOfRChar(b1);
    RRevOfRChar(b2);
  }

  /** L: 'A'..'Z' are 0x00..0x19, '0'..'9' are 0x1A..0x23, '.' is 0x24 and ' ' is 0xFF. */
  function LCode(c: char): (r: Option<byte>)
    ensures r.Some? ==> r.value <= 0x24 || r.value == 0xFF
  {
    if 'A' <= c <= 'Z' then Some(c as int - 'A' as int)
    else if '0' <= c <= '9' then Some(c as int - '0' as int + 0x1A)
    else if c == '.' then Some(0x24)
    else if c == ' ' then Some(0xFF)
    else None
  }

  // ---------------------------------------------------------------------------
  // Decoding and encoding

  /** The character shown for one byte: its R character, or a space for a byte R does not know. */
  function DecodeByte(b: byte): char {
    if IsRunByte(b) then RChar(b) else ' '
  }

  /** decode_text: one character per byte. */
  function Decoded(bs: seq<byte>): (r: string)
    ensures |r| == |bs|
  {
    seq(|bs|, i requires 0 <= i < |bs| => DecodeByte(bs[i]))
  }

  /** The loop of decode_text. */
  method DecodeText(bs: seq<byte>) returns (out: string)
    ensures |out| == |bs|
    ensures forall i | 0 <= i < |bs| :: IsRunByte(bs[i]) ==> out[i] == RChar(bs[i])
    ensures forall i | 0 <= i < |bs| :: !IsRunByte(bs[i]) ==> out[i] == ' '
    ensures out == Decoded(bs)
  {
    out := "";
    for i := 0 to |bs|
      invariant |out| == i
      invariant forall k | 0 <= k < i :: out[k] == DecodeByte(bs[k])
    {
      out := out + [DecodeByte(bs[i])];
    }
  }

  /** The bytes of one upper-case character: R_REV is consulted first, then L; other characters give none. */
  function EncodeChar(c: char): (r: seq<byte>)
    ensures |r| <= 1
  {
    match RRev(c)
    case Some(b) => [b]
    case None =>
      match LCode(c)
      case Some(b) => [b]
      case None => []
  }

  /** The bytes of an upper-cased text, character by character. */
  function EncodeUpper(u: string): (r: seq<byte>)
    ensures |r| <= |u|
  {
    if u == [] then [] else EncodeUpper(u[..|u| - 1]) + EncodeChar(u[|u| - 1])
  }

  /** encode_text: the bytes of `text.upper()`; never more bytes than characters. */
  function Encoded(text: string): (r: seq<byte>)
    ensures |r| <= |text|
  {
    EncodeUpper(Upper(text))
  }

  /** The loop of encode_text. */
  method EncodeText(text: string) returns (data: seq<byte>)
    ensures |data| <= |text|
    ensures data == Encoded(text)
  {
    var upper := Upper(text);
    data := [];
    for i := 0 to |upper|
      invariant data == EncodeUpper(upper[..i])
    {
      assert upper[..i + 1][..i] == upper[..i];
      data := data + EncodeChar(upper[i]);
    }
    assert upper[..|upper|] == upper;
  }

  /** The characters of R are already upper case. */
  lemma UpperOfRChar(b: byte)
    requires IsRunByte(b)
    ensures UpperChar(RChar(b)) == RChar(b)
  {
  }

  /** Every byte list drawn from R's bytes survives decoding and encoding again. */
  lemma {:induction false} EncodeDecoded(bs: seq<byte>)
    requires forall i | 0 <= i < |bs| :: IsRunByte(bs[i])
    ensures Encoded(Decoded(bs)) == bs
  {
    var text := Decoded(bs);
    assert Upper(text) == text by {
      forall i | 0 <= i < |text|
        ensures Upper(text)[i] == text[i]
      {
        UpperOfRChar(bs[i]);
      }
    }
    EncodeUpperOfDecoded(bs);
  }

  lemma {:induction false} EncodeUpperOfDecoded(bs: seq<byte>)
    requires forall i | 0 <= i < |bs| :: IsRunByte(bs[i])
    ensures EncodeUpper(Decoded(bs)) == bs
  {
    if bs != [] {
      var n := |bs| - 1;
      var text := Decoded(bs);
      assert text[..n] == Decoded(bs[..n]);
      EncodeUpperOfDecoded(bs[..n]);
      RRevOfRChar(bs[n]);
      assert bs == bs[..n] + [bs[n]];
    }
  }

  /** A text made of R's characters survives encoding and decoding again. */
  lemma {:induction false} DecodeEncoded(text: string)
    requires forall i | 0 <= i < |text| :: RRev(text[i]).Some?
    ensures Decoded(Encoded(text)) == text
  {
    assert Upper(text) == text by {
      forall i | 0 <= i < |text|
        ensures Upper(text)[i] == text[i]
      {
        UpperOfRChar(RRev(text[i]).value);
      }
    }
    DecodeEncodeUpper(text);
  }

  lemma {:induction false} DecodeEncodeUpper(u: string)
    requires forall i | 0 <= i < |u| :: RRev(u[i]).Some?
    ensures Decoded(EncodeUpper(u)) == u
  {
    if u != [] {
      var n := |u| - 1;
      DecodeEncodeUpper(u[..n]);
      var prefix := EncodeUpper(u[..n]);
      var b := RRev(u[n]).value;
      assert EncodeUpper(u) == prefix + [b];
      assert Decoded(prefix + [b]) == Decoded(prefix) + [u[n]];
      assert u == u[..n] + [u[n]];
    }
  }

  // ---------------------------------------------------------------------------
  // Blocks

  /** `not text.strip()`: the text is empty or all whitespace. */
  predicate Blank(text: string) {
    forall i | 0 <= i < |text| :: IsSpace(text[i])
  }

  /** One entry of extract_blocks: where the run starts, how many bytes it has, and its decoded text. */
  datatype Block = Block(offset: nat, length: nat, original: string)

  /** The end of the run of R bytes from `i`: the run cannot be extended to the right. */
  function RunEnd(data: seq<byte>, i: nat): (e: nat)
    requires i <= |data|
    ensures i <= e <= |data|
    ensures forall k | i <= k < e :: IsRunByte(data[k])
    ensures e == |data| || !IsRunByte(data[e])
    decreases |data| - i
  {
    if i < |data| && IsRunByte(data[i]) then RunEnd(data, i + 1) else i
  }

  /** The blocks extract_blocks finds from index `i` on: at each byte 0x40..0x5E a run starts and is
      kept when its text is not blank; any other byte is stepped over. */
  function BlocksFrom(data: seq<byte>, i: nat): seq<Block>
    requires i <= |data|
    decreases |data| - i
  {
    if i == |data| then []
    else if IsStartByte(data[i]) then
      var e := RunEnd(data, i + 1);
      var text := Decoded(data[i..e]);
      (if !Blank(text) then [Block(i, e - i, text)] else []) + BlocksFrom(data, e)
    else
      BlocksFrom(data, i + 1)
  }

  function Blocks(data: seq<byte>): seq<Block> {
    BlocksFrom(data, 0)
  }

  /** A run that begins on a byte 0x40..0x5E decodes to a text beginning with a letter, so the
      blank-text filter never drops it. */
  lemma StartRunNotBlank(data: seq<byte>, i: nat, e: nat)
    requires i < e <= |data| && IsStartByte(data[i])
    ensures !Blank(Decoded(data[i..e]))
  {
    var text := Decoded(data[i..e]);
    assert text[0] == RChar(data[i]);
    assert !IsSpace(text[0]);
  }

  /** Block `b` of `data`: it begins on a byte 0x40..0x5E, covers R bytes only, cannot be extended to
      the right, lies inside `data`, and carries the decoding of its bytes. */
  predicate BlockOk(data: seq<byte>, b: Block) {
    && 1 <= b.length && b.offset + b.length <= |data|
    && IsStartByte(data[b.offset])
    && (forall p | b.offset <= p < b.offset + b.length :: IsRunByte(data[p]))
    && (b.offset + b.length == |data| || !IsRunByte(data[b.offset + b.length]))
    && b.original == Decoded(data[b.offset..b.offset + b.length])
  }

  /** Every block is well formed and at or after `start`. */
  predicate AllBlocksOk(data: seq<byte>, start: nat, bs: seq<Block>) {
    forall k | 0 <= k < |bs| :: BlockOk(data, bs[k]) && start <= bs[k].offset
  }

  /** A block after `start` follows a byte that cannot begin a block. */
  predicate AfterNonStart(data: seq<byte>, start: nat, bs: seq<Block>)
    requires AllBlocksOk(data, start, bs)
  {
    forall k | 0 <= k < |bs| :: bs[k].offset == start || !IsStartByte(data[bs[k].offset - 1])
  }

  /** The blocks come in buffer order without overlapping. */
  predicate InOrder(bs: seq<Block>) {
    forall j, k | 0 <= j < k < |bs| :: bs[j].offset + bs[j].length <= bs[k].offset
  }

  predicate BlocksOk(data: seq<byte>, start: nat, bs: seq<Block>) {
    AllBlocksOk(data, start, bs) && AfterNonStart(data, start, bs) && InOrder(bs)
  }

  lemma {:induction false} BlocksFromOk(data: seq<byte>, i: nat)
    requires i <= |data|
    ensures BlocksOk(data, i, BlocksFrom(data, i))
    decreases |data| - i
  {
    if i < |data| {
      if IsStartByte(data[i]) {
        var e := RunEnd(data, i + 1);
        var b := Block(i, e - i, Decoded(data[i..e]));
        var rest := BlocksFrom(data, e);
        BlocksFromOk(data, e);
        StartRunNotBlank(data, i, e);
        BlocksFromRun(data, i, e, e - i, b.original);
        HeadBlockOk(data, i, e);
        AllBlocksOkCons(data, i, e, b, rest);
        AfterNonStartCons(data, i, e, b, rest);
        InOrderCons(b, rest, e);
      } else {
        BlocksFromOk(data, i + 1);
      }
    }
  }

  /** The run taken at a byte 0x40..0x5E makes a well-formed block. */
  lemma HeadBlockOk(data: seq<byte>, i: nat, e: nat)
    requires i < |data| && IsStartByte(data[i]) && e == RunEnd(data, i + 1)
    ensures BlockOk(data, Block(i, e - i, Decoded(data[i..e])))
  {
  }

  lemma AllBlocksOkCons(data: seq<byte>, i: nat, e: nat, b: Block, rest: seq<Block>)
    requires BlockOk(data, b) && b.offset == i <= e && AllBlocksOk(data, e, rest)
    ensures AllBlocksOk(data, i, [b] + rest)
  {
    var bs := [b] + rest;
    assert forall k | 1 <= k < |bs| :: bs[k] == rest[k - 1];
  }

  lemma AfterNonStartCons(data: seq<byte>, i: nat, e: nat, b: Block, rest: seq<Block>)
    requires BlockOk(data, b) && b.offset == i <= e && AllBlocksOk(data, e, rest) && AllBlocksOk(data, i, [b] + rest)
    requires AfterNonStart(data, e, rest)
    requires e <= |data| && (e == |data| || !IsRunByte(data[e]))
    ensures AfterNonStart(data, i, [b] + rest)
  {
    var bs := [b] + rest;
    forall k | 1 <= k < |bs|
      ensures bs[k].offset == i || !IsStartByte(data[bs[k].offset - 1])
    {
      assert bs[k] == rest[k - 1];
      assert IsStartByte(data[rest[k - 1].offset]);
    }
  }

  lemma InOrderCons(b: Block, rest: seq<Block>, e: nat)
    requires b.offset + b.length <= e && InOrder(rest)
    requires forall k | 0 <= k < |rest| :: e <= rest[k].offset
    ensures InOrder([b] + rest)
  {
    var bs := [b] + rest;
    assert forall k | 1 <= k < |bs| :: bs[k] == rest[k - 1];
  }

  /** Every block extract_blocks returns is well formed, and the blocks are in order and disjoint. */
  lemma BlocksWellFormed(data: seq<byte>)
    ensures BlocksOk(data, 0, Blocks(data))
  {
    BlocksFromOk(data, 0);
  }

  /** Byte `p` lies inside one of the blocks. */
  predicate Covered(bs: seq<Block>, p: nat) {
    exists k | 0 <= k < |bs| :: bs[k].offset <= p < bs[k].offset + bs[k].length
  }

  lemma CoveredCons(b: Block, rest: seq<Block>, p: nat)
    requires Covered(rest, p) || b.offset <= p < b.offset + b.length
    ensures Covered([b] + rest, p)
  {
    var bs := [b] + rest;
    if b.offset <= p < b.offset + b.length {
      assert bs[0] == b;
    } else {
      var k :| 0 <= k < |rest| && rest[k].offset <= p < rest[k].offset + rest[k].length;
      assert bs[k + 1] == rest[k];
    }
  }

  /** Every byte 0x40..0x5E from `i` on lies inside some block. */
  lemma {:induction false} BlocksFromCover(data: seq<byte>, i: nat)
    requires i <= |data|
    ensures forall p | i <= p < |data| && IsStartByte(data[p]) :: Covered(BlocksFrom(data, i), p)
    decreases |data| - i
  {
    if i < |data| {
      if IsStartByte(data[i]) {
        var e := RunEnd(data, i + 1);
        BlocksFromCover(data, e);
        StartRunNotBlank(data, i, e);
        var b := Block(i, e - i, Decoded(data[i..e]));
        assert BlocksFrom(data, i) == [b] + BlocksFrom(data, e);
        forall p | i <= p < |data| && IsStartByte(data[p])
          ensures Covered(BlocksFrom(data, i), p)
        {
          CoveredCons(b, BlocksFrom(data, e), p);
        }
      } else {
        BlocksFromCover(data, i + 1);
      }
    }
  }

  /** Every byte 0x40..0x5E of the file lies inside a block that extract_blocks returns. */
  lemma BlocksCover(data: seq<byte>, p: nat)
    requires p < |data| && IsStartByte(data[p])
    ensures Covered(Blocks(data), p)
  {
    BlocksFromCover(data, 0);
  }

  /** The scan steps over a byte that cannot begin a block. */
  lemma BlocksFromSkip(data: seq<byte>, i: nat)
    requires i < |data| && !IsStartByte(data[i])
    ensures BlocksFrom(data, i) == BlocksFrom(data, i + 1)
  {
  }

  /** The scan takes the run from `i` to `e` and goes on after it. */
  lemma BlocksFromRun(data: seq<byte>, i: nat, e: nat, n: nat, text: string)
    requires i < |data| && IsStartByte(data[i]) && e == RunEnd(data, i + 1) && n == e - i
    requires text == Decoded(data[i..e])
    ensures !Blank(text) ==> BlocksFrom(data, i) == [Block(i, n, text)] + BlocksFrom(data, e)
    ensures Blank(text) ==> BlocksFrom(data, i) == BlocksFrom(data, e)
  {
  }

  /** extract_blocks. */
  method ExtractBlocks(data: seq<byte>) returns (blocks: seq<Block>)
    ensures blocks == Blocks(data)
  {
    blocks := [];
    var i := 0;
    while i < |data|
      invariant i <= |data|
      invariant blocks + BlocksFrom(data, i) == Blocks(data)
      decreases |data| - i
    {
      if 0x40 <= data[i] <= 0x5E {
        var start := i;
        var buf: seq<byte> := [];
        while i < |data| && ((0x3E <= data[i] <= 0x5E) || data[i] == 0xFF)
          invariant start <= i <= |data|
          invariant buf == data[start..i]
          invariant i == start || RunEnd(data, i) == RunEnd(data, start + 1)
          decreases |data| - i
        {
          SliceSnoc(data, start, i);
          buf := buf + [data[i]];
          i := i + 1;
        }
        var text := DecodeText(buf);
        BlocksFromRun(data, start, i, |buf|, text);
        assert Strip(text) != [] <==> !Blank(text);
        if Strip(text) != [] {
          SnocAssoc(blocks, Block(start, |buf|, text), BlocksFrom(data, i));
          blocks := blocks + [Block(start, |buf|, text)];
        }
      } else {
        BlocksFromSkip(data, i);
        i := i + 1;
      }
    }
  }

  // ---------------------------------------------------------------------------
  // The translation dump

  /** The heading of block `index` in the dump: "[index] OFFSET=0x<eight hex digits> LEN=<length>". */
  function HeaderLine(index: nat, b: Block): (line: string)
    ensures StartsWith(line, "[")
    ensures forall k | 0 <= k < |line| :: !IsLineBreak(line[k])
  {
    var line := "[" + Decimal(index) + "] OFFSET=0x" + HexPadded(b.offset, 8) + " LEN=" + Decimal(b.length);
    assert line[..1] == "[";
    line
  }

  /** The lines of the dump for `blocks`, numbered from `first`: a heading, the text and a blank line each. */
  function DumpLines(blocks: seq<Block>, first: nat): (lines: seq<string>)
    ensures |lines| == 3 * |blocks|
  {
    if blocks == [] then []
    else [HeaderLine(first, blocks[0]), blocks[0].original, ""] + DumpLines(blocks[1..], first + 1)
  }

  lemma {:induction false} DumpLinesSnoc(blocks: seq<Block>, b: Block, first: nat)
    ensures DumpLines(blocks + [b], first)
         == DumpLines(blocks, first) + [HeaderLine(first + |blocks|, b), b.original, ""]
  {
    if blocks != [] {
      assert (blocks + [b])[1..] == blocks[1..] + [b];
      DumpLinesSnoc(blocks[1..], b, first + 1);
    }
  }

  /** The text dump_texts writes: the dump lines joined by "\n". */
  method DumpTexts(data: seq<byte>) returns (dump: string)
    ensures dump == Join(DumpLines(Blocks(data), 0), "\n")
  {
    var blocks := ExtractBlocks(data);
    var out: seq<string> := [];
    for i := 0 to |blocks|
      invariant out == DumpLines(blocks[..i], 0)
    {
      DumpLinesSnoc(blocks[..i], blocks[i], 0);
      assert blocks[..i + 1] == blocks[..i] + [blocks[i]];
      out := out + [HeaderLine(i, blocks[i]), blocks[i].original, ""];
    }
    assert blocks[..|blocks|] == blocks;
    dump := Join(out, "\n");
  }

  // ---------------------------------------------------------------------------
  // Applying a translation

  /** Every block lies inside a buffer of `n` bytes. */
  predicate Within(blocks: seq<Block>, n: nat) {
    forall k | 0 <= k < |blocks| :: blocks[k].offset + blocks[k].length <= n
  }

  /** `blocks[idx]` as Python reads it for an index never below -1: -1 names the last block. */
  function BlockAt(blocks: seq<Block>, idx: int): (r: Option<Block>)
    requires idx >= -1
    ensures r.Some? <==> (0 <= idx < |blocks| || (idx == -1 && blocks != []))
    ensures r.Some? ==> r.value in blocks
  {
    if 0 <= idx < |blocks| then Some(blocks[idx])
    else if idx == -1 && blocks != [] then Some(blocks[|blocks| - 1])
    else None
  }

  /** The replacement bytes cut or padded with 0xFF to exactly `n` bytes. */
  function Fit(bytes: seq<byte>, n: nat): (r: seq<byte>)
    ensures |r| == n
    ensures |bytes| >= n ==> r == bytes[..n]
    ensures |bytes| < n ==> r[..|bytes|] == bytes && forall k | |bytes| <= k < n :: r[k] == 0xFF
  {
    if |bytes| >= n then bytes[..n] else bytes + seq(n - |bytes|, _ => 0xFF)
  }

  /** `d` with the bytes from `offset` replaced by `bytes`. */
  function Patch(d: seq<byte>, offset: nat, bytes: seq<byte>): (r: seq<byte>)
    requires offset + |bytes| <= |d|
    ensures |r| == |d|
    ensures r[offset..offset + |bytes|] == bytes
    ensures forall p | 0 <= p < |d| && !(offset <= p < offset + |bytes|) :: r[p] == d[p]
  {
    d[..offset] + bytes + d[offset + |bytes|..]
  }

  /** The file after the translation lines from the current one on, with `idx` the current block index:
      a line starting with "[" moves to the next block, a blank line is skipped, and any other line is
      encoded and written over the current block; None when a line names a block that does not exist. */
  function ApplyLines(d: seq<byte>, blocks: seq<Block>, lines: seq<string>, idx: int): (r: Option<seq<byte>>)
    requires idx >= -1 && Within(blocks, |d|)
    ensures r.Some? ==> |r.value| == |d|
    decreases |lines|
  {
    if lines == [] then Some(d)
    else if StartsWith(lines[0], "[") then ApplyLines(d, blocks, lines[1..], idx + 1)
    else if Blank(lines[0]) then ApplyLines(d, blocks, lines[1..], idx)
    else
      match BlockAt(blocks, idx)
      case None => None
      case Some(b) => ApplyLines(Patch(d, b.offset, Fit(Encoded(lines[0]), b.length)), blocks, lines[1..], idx)
  }

  /** The index `blocks[idx]` names, as a set: empty when there is no such block. */
  function CurrentIndex(blocks: seq<Block>, idx: int): (ks: set<nat>)
    requires idx >= -1
    ensures forall k | k in ks :: k < |blocks| && BlockAt(blocks, idx) == Some(blocks[k])
    ensures ks == {} <==> BlockAt(blocks, idx).None?
  {
    if 0 <= idx < |blocks| then {idx}
    else if idx == -1 && blocks != [] then {|blocks| - 1}
    else {}
  }

  /** The indices of the blocks the translation lines from the current one on write over. */
  function Targeted(blocks: seq<Block>, lines: seq<string>, idx: int): (ks: set<nat>)
    requires idx >= -1
    ensures forall k | k in ks :: k < |blocks|
    decreases |lines|
  {
    if lines == [] then {}
    else if StartsWith(lines[0], "[") then Targeted(blocks, lines[1..], idx + 1)
    else if Blank(lines[0]) then Targeted(blocks, lines[1..], idx)
    else CurrentIndex(blocks, idx) + Targeted(blocks, lines[1..], idx)
  }

  /** Byte `p` lies in none of the blocks whose indices are in `ks`. */
  predicate OutsideOf(blocks: seq<Block>, ks: set<nat>, p: nat) {
    forall k | k in ks && k < |blocks| :: !(blocks[k].offset <= p < blocks[k].offset + blocks[k].length)
  }

  /** Applying a translation keeps the file length and every byte outside the blocks its text
      lines write over. */
  lemma {:induction false} ApplyLinesFrame(d: seq<byte>, blocks: seq<Block>, lines: seq<string>, idx: int, p: nat)
    requires idx >= -1 && Within(blocks, |d|)
    requires ApplyLines(d, blocks, lines, idx).Some?
    requires p < |d| && OutsideOf(blocks, Targeted(blocks, lines, idx), p)
    ensures |ApplyLines(d, blocks, lines, idx).value| == |d|
    ensures ApplyLines(d, blocks, lines, idx).value[p] == d[p]
    decreases |lines|
  {
    if lines != [] {
      if StartsWith(lines[0], "[") {
        ApplyLinesFrame(d, blocks, lines[1..], idx + 1, p);
      } else if !Blank(lines[0]) {
        var b := BlockAt(blocks, idx).value;
        var k :| k in CurrentIndex(blocks, idx);
        assert blocks[k] == b;
        var d' := Patch(d, b.offset, Fit(Encoded(lines[0]), b.length));
        ApplyLinesFrame(d', blocks, lines[1..], idx, p);
      } else {
        ApplyLinesFrame(d, blocks, lines[1..], idx, p);
      }
    }
  }

  /** With the blocks in order, a block that no text line writes over keeps its bytes. */
  lemma ApplyLinesKeepsBlock(d: seq<byte>, blocks: seq<Block>, lines: seq<string>, idx: int, k: nat)
    requires idx >= -1 && Within(blocks, |d|) && InOrder(blocks)
    requires ApplyLines(d, blocks, lines, idx).Some?
    requires k < |blocks| && k !in Targeted(blocks, lines, idx)
    ensures ApplyLines(d, blocks, lines, idx).value[blocks[k].offset..blocks[k].offset + blocks[k].length]
         == d[blocks[k].offset..blocks[k].offset + blocks[k].length]
  {
    var b := blocks[k];
    var ks := Targeted(blocks, lines, idx);
    var r := ApplyLines(d, blocks, lines, idx).value;
    forall p | b.offset <= p < b.offset + b.length
      ensures r[p] == d[p]
    {
      OutsideOthers(blocks, ks, k, p);
      ApplyLinesFrame(d, blocks, lines, idx, p);
    }
  }

  /** A byte of block `k` lies in no other block, when the blocks are in order. */
  lemma OutsideOthers(blocks: seq<Block>, ks: set<nat>, k: nat, p: nat)
    requires InOrder(blocks) && k < |blocks| && k !in ks
    requires blocks[k].offset <= p < blocks[k].offset + blocks[k].length
    ensures OutsideOf(blocks, ks, p)
  {
    forall j | j in ks && j < |blocks|
      ensures !(blocks[j].offset <= p < blocks[j].offset + blocks[j].length)
    {
      if j < k {
        assert blocks[j].offset + blocks[j].length <= blocks[k].offset;
      } else {
        assert blocks[k].offset + blocks[k].length <= blocks[j].offset;
      }
    }
  }

  /** A blank line at the end changes nothing. */
  lemma {:induction false} ApplyTrailingBlank(d: seq<byte>, blocks: seq<Block>, lines: seq<string>, idx: int)
    requires idx >= -1 && Within(blocks, |d|)
    ensures ApplyLines(d, blocks, lines + [""], idx) == ApplyLines(d, blocks, lines, idx)
    decreases |lines|
  {
    var all := lines + [""];
    if lines == [] {
      assert !StartsWith("", "[");
      assert all[1..] == [];
    } else {
      assert all[0] == lines[0] && all[1..] == lines[1..] + [""];
      if StartsWith(lines[0], "[") {
        ApplyTrailingBlank(d, blocks, lines[1..], idx + 1);
      } else if Blank(lines[0]) {
        ApplyTrailingBlank(d, blocks, lines[1..], idx);
      } else if BlockAt(blocks, idx).Some? {
        var b := BlockAt(blocks, idx).value;
        var d' := Patch(d, b.offset, Fit(Encoded(lines[0]), b.length));
        ApplyTrailingBlank(d', blocks, lines[1..], idx);
      }
    }
  }

  /** Writing a block's own text back over it leaves the file as it was. */
  lemma RewriteBlock(data: seq<byte>, b: Block)
    requires BlockOk(data, b)
    ensures Patch(data, b.offset, Fit(Encoded(b.original), b.length)) == data
  {
    EncodeDecoded(data[b.offset..b.offset + b.length]);
  }

  /** The dump lines of the blocks from `k` on, applied from block index k - 1, leave the file as it was. */
  lemma {:induction false} ApplyDumpFrom(data: seq<byte>, blocks: seq<Block>, k: nat)
    requires k <= |blocks| && forall j | 0 <= j < |blocks| :: BlockOk(data, blocks[j])
    ensures Within(blocks, |data|)
    ensures ApplyLines(data, blocks, DumpLines(blocks[k..], k), k - 1) == Some(data)
    decreases |blocks| - k
  {
    if k < |blocks| {
      var b := blocks[k];
      var rest := DumpLines(blocks[k + 1..], k + 1);
      assert blocks[k..][1..] == blocks[k + 1..];
      assert DumpLines(blocks[k..], k) == [HeaderLine(k, b), b.original, ""] + rest;
      Nest3(HeaderLine(k, b), b.original, "", rest);
      StartRunNotBlank(data, b.offset, b.offset + b.length);
      assert b.original[0] == RChar(data[b.offset]);
      assert !StartsWith(b.original, "[");
      assert !StartsWith("", "[");
      RewriteBlock(data, b);
      ApplyDumpFrom(data, blocks, k + 1);
      ApplySkipLine(data, blocks, "", rest, k);
      ApplyTextLine(data, blocks, b.original, [""] + rest, k, b);
      ApplyHeaderLine(data, blocks, HeaderLine(k, b), [b.original] + ([""] + rest), k - 1);
    } else {
      assert blocks[k..] == [];
    }
  }

  lemma Nest3<T>(a: T, b: T, c: T, rest: seq<T>)
    ensures [a, b, c] + rest == [a] + ([b] + ([c] + rest))
  {
  }

  /** A line starting with "[" moves to the next block. */
  lemma ApplyHeaderLine(d: seq<byte>, blocks: seq<Block>, line: string, rest: seq<string>, idx: int)
    requires idx >= -1 && Within(blocks, |d|) && StartsWith(line, "[")
    ensures ApplyLines(d, blocks, [line] + rest, idx) == ApplyLines(d, blocks, rest, idx + 1)
  {
    assert ([line] + rest)[1..] == rest;
  }

  /** A blank line is skipped. */
  lemma ApplySkipLine(d: seq<byte>, blocks: seq<Block>, line: string, rest: seq<string>, idx: int)
    requires idx >= -1 && Within(blocks, |d|) && !StartsWith(line, "[") && Blank(line)
    ensures ApplyLines(d, blocks, [line] + rest, idx) == ApplyLines(d, blocks, rest, idx)
  {
    assert ([line] + rest)[1..] == rest;
  }

  /** Any other line is written over the current block. */
  lemma ApplyTextLine(d: seq<byte>, blocks: seq<Block>, line: string, rest: seq<string>, idx: int, b: Block)
    requires idx >= -1 && Within(blocks, |d|) && !StartsWith(line, "[") && !Blank(line)
    requires BlockAt(blocks, idx) == Some(b)
    ensures b.offset + b.length <= |d|
    ensures ApplyLines(d, blocks, [line] + rest, idx)
         == ApplyLines(Patch(d, b.offset, Fit(Encoded(line), b.length)), blocks, rest, idx)
  {
    assert ([line] + rest)[1..] == rest;
  }

  /** A text line when the current block does not exist fails. */
  lemma ApplyNoBlock(d: seq<byte>, blocks: seq<Block>, line: string, rest: seq<string>, idx: int)
    requires idx >= -1 && Within(blocks, |d|) && !StartsWith(line, "[") && !Blank(line)
    requires BlockAt(blocks, idx) == None
    ensures ApplyLines(d, blocks, [line] + rest, idx) == None
  {
  }

  /** The dump lines contain no line breaks. */
  lemma {:induction false} DumpLinesNoBreaks(data: seq<byte>, blocks: seq<Block>, first: nat)
    requires forall j | 0 <= j < |blocks| :: BlockOk(data, blocks[j])
    ensures NoLineBreaks(DumpLines(blocks, first))
  {
    if blocks != [] {
      var b := blocks[0];
      DumpLinesNoBreaks(data, blocks[1..], first + 1);
      var lines := DumpLines(blocks, first);
      var rest := DumpLines(blocks[1..], first + 1);
      assert lines == [HeaderLine(first, b), b.original, ""] + rest;
      forall j | 0 <= j < |b.original|
        ensures !IsLineBreak(b.original[j])
      {
        assert b.original[j] == DecodeByte(data[b.offset + j]);
      }
      forall i | 3 <= i < |lines|
        ensures lines[i] == rest[i - 3]
      {
      }
    }
  }

  /** Applying the unedited dump of a file to that file gives the file back, byte for byte. */
  lemma DumpApplyIdentity(data: seq<byte>)
    ensures Within(Blocks(data), |data|)
    ensures ApplyLines(data, Blocks(data), SplitLines(Join(DumpLines(Blocks(data), 0), "\n")), -1) == Some(data)
  {
    var blocks := Blocks(data);
    BlocksWellFormed(data);
    DumpReadBack(data, blocks);
    ApplyDumpLines(data, blocks);
  }

  /** Reading the dump back splits it into its lines, less the final blank one. */
  lemma DumpReadBack(data: seq<byte>, blocks: seq<Block>)
    requires forall j | 0 <= j < |blocks| :: BlockOk(data, blocks[j])
    ensures SplitLines(Join(DumpLines(blocks, 0), "\n")) == DropTrailingEmpty(DumpLines(blocks, 0))
  {
    DumpLinesNoBreaks(data, blocks, 0);
    SplitLinesOfJoin(DumpLines(blocks, 0));
  }

  /** The dump lines, less the final blank one, leave the file as it was. */
  lemma ApplyDumpLines(data: seq<byte>, blocks: seq<Block>)
    requires forall j | 0 <= j < |blocks| :: BlockOk(data, blocks[j])
    ensures Within(blocks, |data|)
    ensures ApplyLines(data, blocks, DropTrailingEmpty(DumpLines(blocks, 0)), -1) == Some(data)
  {
    var lines := DumpLines(blocks, 0);
    ApplyDumpFrom(data, blocks, 0);
    assert blocks[0..] == blocks;
    if blocks != [] {
      var n := |lines| - 1;
      assert lines[n] == "" by {
        DumpLinesLast(blocks, 0);
      }
      LastSplit(lines);
      ApplyTrailingBlank(data, blocks, lines[..n], -1);
    }
  }

  /** The dump of a non-empty list of blocks ends with a blank line. */
  lemma {:induction false} DumpLinesLast(blocks: seq<Block>, first: nat)
    requires blocks != []
    ensures DumpLines(blocks, first)[3 * |blocks| - 1] == ""
  {
    if |blocks| > 1 {
      DumpLinesLast(blocks[1..], first + 1);
    }
  }

  /** The patch loop of apply_translation: `bytes` written over the file from `offset`. */
  method WriteBlock(data: array<byte>, offset: nat, bytes: seq<byte>)
    requires offset + |bytes| <= data.Length
    modifies data
    ensures data[..] == Patch(old(data[..]), offset, bytes)
  {
    for j := 0 to |bytes|
      invariant forall p | 0 <= p < data.Length ::
        data[p] == (if offset <= p < offset + j then bytes[p - offset] else old(data[p]))
    {
      data[offset + j] := bytes[j];
    }
  }

  /** The truncate-then-pad step of apply_translation: cut `bytes` to `n`, then pad with 0xFF to `n`. */
  method FitBytes(bytes: seq<byte>, n: nat) returns (r: seq<byte>)
    ensures r == Fit(bytes, n)
  {
    r := bytes;
    if |r| > n {
      r := r[..n];
    }
    while |r| < n
      invariant |r| <= n
      invariant Fit(bytes, n) == Fit(r, n)
      decreases n - |r|
    {
      r := r + [0xFF];
    }
    assert r[..n] == r;
  }

  /** One text line of the dump written over its block: encoded, fitted to the block's length, copied in. */
  method WriteLine(data: array<byte>, block: Block, line: string)
    requires block.offset + block.length <= data.Length
    modifies data
    ensures data[..] == Patch(old(data[..]), block.offset, Fit(Encoded(line), block.length))
  {
    var newBytes := EncodeText(line);
    newBytes := FitBytes(newBytes, block.length);
    WriteBlock(data, block.offset, newBytes);
  }

  /** One iteration of apply_translation's loop over the lines of the dump, `rest` being the lines
      after `line`: the new block index, and whether the loop goes on. */
  method ApplyLine(data: array<byte>, blocks: seq<Block>, line: string, idx: int, ghost rest: seq<string>)
    returns (next: int, more: bool)
    requires idx >= -1 && Within(blocks, data.Length)
    modifies data
    ensures next >= -1
    ensures more ==> ApplyLines(old(data[..]), blocks, [line] + rest, idx) == ApplyLines(data[..], blocks, rest, next)
    ensures !more ==> ApplyLines(old(data[..]), blocks, [line] + rest, idx).None?
  {
    next, more := idx, true;
    assert Strip(line) == [] <==> Blank(line);
    if StartsWith(line, "[") {
      ApplyHeaderLine(data[..], blocks, line, rest, idx);
      next := idx + 1;
    } else if Strip(line) == [] {
      ApplySkipLine(data[..], blocks, line, rest, idx);
    } else {
      var found := BlockAt(blocks, idx);
      if found.None? {
        ApplyNoBlock(data[..], blocks, line, rest, idx);
        more := false;
      } else {
        var block := found.value;
        ApplyTextLine(data[..], blocks, line, rest, idx, block);
        WriteLine(data, block, line);
      }
    }
  }

  /** apply_translation on the file bytes `data`, with `translation` the text of the dump file:
      the blocks are found once, before any line is applied, and each patch is written in place. */
  method ApplyTranslation(data: array<byte>, translation: string) returns (ok: bool)
    modifies data
    ensures BlocksOk(old(data[..]), 0, Blocks(old(data[..])))
    ensures ok <==> ApplyLines(old(data[..]), Blocks(old(data[..])), SplitLines(translation), -1).Some?
    ensures ok ==> data[..] == ApplyLines(old(data[..]), Blocks(old(data[..])), SplitLines(translation), -1).value
  {
    var blocks := ExtractBlocks(data[..]);
    BlocksWellFormed(data[..]);
    assert Within(blocks, data.Length);
    var lines := SplitLines(translation);
    ghost var result := ApplyLines(data[..], blocks, lines, -1);
    var idx := -1;
    for i := 0 to |lines|
      invariant idx >= -1
      invariant ApplyLines(data[..], blocks, lines[i..], idx) == result
    {
      SuffixCons(lines, i);
      var more;
      idx, more := ApplyLine(data, blocks, lines[i], idx, lines[i + 1..]);
      if !more {
        return false;
      }
    }
    return true;
  }
}
