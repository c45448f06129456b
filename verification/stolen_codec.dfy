/**
 * Pure part of the "StolenIn60Secs" text editor: the one-byte character table,
 * the length prefixes, the scan that finds length-prefixed texts after a
 * configurable offset, the serialiser that rebuilds the file, and the update
 * of entries from a list of texts.
 */
module StolenCodec {
  import opened Wrappers
  import opened Bytes
  import opened PyStrings
  import opened SeqFacts

  /** CHAR_MAP: the character of byte `b` is `CharTable[b]`, for `b` in 0x00..0x5C
      (six entries per line, as in the source table). */
  const CharTable: string :=
    " ABCDE" +
    "FGHIJK" +
    "LMNOPQ" +
    "RSTUVW" +
    "XYZabc" +
    "defghi" +
    "jklmno" +
    "pqrstu" +
    "vwxyz." +
    ",?!-+:" +
    "/12345" +
    "67890#" +
    "*<>()\"" +
    "=%'^_&" +
    "$@~{}[" +
    "]|;"

  /** Largest text length the scan accepts. */
  const MaxTextLength: nat := 10000

  /** Proof device: the position of `c` in `CharTable`, or -1. */
  ghost function TablePosition(c: char): int {
    if c == ' ' then 0x00
    else if 'A' <= c <= 'Z' then c as int - 'A' as int + 0x01
    else if 'a' <= c <= 'z' then c as int - 'a' as int + 0x1B
    else
      match c
        case '.' => 0x35 case ',' => 0x36 case '?' => 0x37 case '!' => 0x38 case '-' => 0x39 case '+' => 0x3A
        case ':' => 0x3B case '/' => 0x3C case '1' => 0x3D case '2' => 0x3E case '3' => 0x3F case '4' => 0x40
        case '5' => 0x41 case '6' => 0x42 case '7' => 0x43 case '8' => 0x44 case '9' => 0x45 case '0' => 0x46
        case '#' => 0x47 case '*' => 0x48 case '<' => 0x49 case '>' => 0x4A case '(' => 0x4B case ')' => 0x4C
        case '"' => 0x4D case '=' => 0x4E case '%' => 0x4F case '\'' => 0x50 case '^' => 0x51 case '_' => 0x52
        case '&' => 0x53 case '$' => 0x54 case '@' => 0x55 case '~' => 0x56 case '{' => 0x57 case '}' => 0x58
        case '[' => 0x59 case ']' => 0x5A case '|' => 0x5B case ';' => 0x5C
        case _ => -1
  }

  /** The table holds each character at its own position. */
  lemma TablePositionOf(b: nat)
    requires b < |CharTable|
    ensures TablePosition(CharTable[b]) == b
  {
    if b < 6 { TablePositionLine1(b); }
    else if b < 12 { TablePositionLine2(b); }
    else if b < 18 { TablePositionLine3(b); }
    else if b < 24 { TablePositionLine4(b); }
    else if b < 30 { TablePositionLine5(b); }
    else if b < 36 { TablePositionLine6(b); }
    else if b < 42 { TablePositionLine7(b); }
    else if b < 48 { TablePositionLine8(b); }
    else if b < 54 { TablePositionLine9(b); }
    else if b < 60 { TablePositionLine10(b); }
    else if b < 66 { TablePositionLine11(b); }
    else if b < 72 { TablePositionLine12(b); }
    else if b < 78 { TablePositionLine13(b); }
    else if b < 84 { TablePositionLine14(b); }
    else if b < 90 { TablePositionLine15(b); }
    else { TablePositionLine16(b); }
  }

  // The table one source line at a time, to keep each proof small.
  lemma TablePositionLine1(b: nat)
    requires 0 <= b < 6
    ensures TablePosition(CharTable[b]) == b
  {
  }

  lemma TablePositionLine2(b: nat)
    requires 6 <= b < 12
    ensures TablePosition(CharTable[b]) == b
  {
  }

  lemma TablePositionLine3(b: nat)
    requires 12 <= b < 18
    ensures TablePosition(CharTable[b]) == b
  {
  }

  lemma TablePositionLine4(b: nat)
    requires 18 <= b < 24
    ensures TablePosition(CharTable[b]) == b
  {
  }

  lemma TablePositionLine5(b: nat)
    requires 24 <= b < 30
    ensures TablePosition(CharTable[b]) == b
  {
  }

  lemma TablePositionLine6(b: nat)
    requires 30 <= b < 36
    ensures TablePosition(CharTable[b]) == b
  {
  }

  lemma TablePositionLine7(b: nat)
    requires 36 <= b < 42
    ensures TablePosition(CharTable[b]) == b
  {
  }

  lemma TablePositionLine8(b: nat)
    requires 42 <= b < 48
    ensures TablePosition(CharTable[b]) == b
  {
  }

  lemma TablePositionLine9(b: nat)
    requires 48 <= b < 54
    ensures TablePosition(CharTable[b]) == b
  {
  }

  lemma TablePositionLine10(b: nat)
    requires 54 <= b < 60
    ensures TablePosition(CharTable[b]) == b
  {
  }

  lemma TablePositionLine11(b: nat)
    requires 60 <= b < 66
    ensures TablePosition(CharTable[b]) == b
  {
  }

  lemma TablePositionLine12(b: nat)
    requires 66 <= b < 72
    ensures TablePosition(CharTable[b]) == b
  {
  }

  lemma TablePositionLine13(b: nat)
    requires 72 <= b < 78
    ensures TablePosition(CharTable[b]) == b
  {
  }

  lemma TablePositionLine14(b: nat)
    requires 78 <= b < 84
    ensures TablePosition(CharTable[b]) == b
  {
  }

  lemma TablePositionLine15(b: nat)
    requires 84 <= b < 90
    ensures TablePosition(CharTable[b]) == b
  {
  }

  lemma TablePositionLine16(b: nat)
    requires 90 <= b < 93
    ensures TablePosition(CharTable[b]) == b
  {
  }

  /** No two bytes of the table share a character. */
  lemma CharTableInjective()
    ensures forall b1, b2 | 0 <= b1 < |CharTable| && 0 <= b2 < |CharTable| && CharTable[b1] == CharTable[b2] :: b1 == b2
  {
    forall b1, b2 | 0 <= b1 < |CharTable| && 0 <= b2 < |CharTable| && CharTable[b1] == CharTable[b2]
      ensures b1 == b2
    {
      TablePositionOf(b1);
      TablePositionOf(b2);
    }
  }

  /** REVERSE_CHAR_MAP: every character of the table mapped back to its byte. */
  function ReverseCharMap(): (m: map<char, byte>)
    ensures forall b | 0 <= b < |CharTable| :: CharTable[b] in m && m[CharTable[b]] == b
    ensures forall c | c in m :: m[c] < |CharTable| && CharTable[m[c]] == c
  {
    CharTableInjective();
    map b: byte | b < |CharTable| :: CharTable[b] := b
  }

  // ---------------------------------------------------------------------------
  // Decoding and encoding entry text

  /** The text shown for one byte: its table character, or "[XX]" with the byte in upper-case hex. */
  function DecodeByte(b: byte): (r: string)
    ensures b < |CharTable| ==> r == [CharTable[b]]
    ensures b >= |CharTable| ==> |r| == 4 && r[0] == '[' && r[1..3] == HexPadded(b, 2) && r[3] == ']'
  {
    if b < |CharTable| then [CharTable[b]]
    else
      HexByteIsPadded(b);
      "[" + HexByte(b) + "]"
  }

  /** Every byte of `bs` has a table character. */
  predicate InTable(bs: seq<byte>) {
    forall i | 0 <= i < |bs| :: bs[i] < |CharTable|
  }

  /** The text of an entry's bytes, byte by byte. A byte outside the table widens to four characters. */
  function DecodeText(bs: seq<byte>): (r: string)
    ensures |r| >= |bs|
  {
    if bs == [] then "" else DecodeByte(bs[0]) + DecodeText(bs[1..])
  }

  /** The decoded text is exactly as long as the bytes precisely when every byte has a table character. */
  lemma {:induction false} DecodeTextLength(bs: seq<byte>)
    ensures |DecodeText(bs)| == |bs| <==> InTable(bs)
  {
    if bs != [] {
      DecodeTextLength(bs[1..]);
      assert InTable(bs) <==> bs[0] < |CharTable| && InTable(bs[1..]) by {
        assert forall i | 1 <= i < |bs| :: bs[i] == bs[1..][i - 1];
      }
    }
  }

  /** Bytes that all have table characters decode to those characters, one per byte. */
  lemma {:induction false} DecodeTextInTable(bs: seq<byte>)
    requires InTable(bs)
    ensures DecodeText(bs) == seq(|bs|, i requires 0 <= i < |bs| => CharTable[bs[i]])
  {
    if bs != [] {
      assert InTable(bs[1..]) by {
        assert forall i | 0 <= i < |bs| - 1 :: bs[1..][i] == bs[i + 1];
      }
      DecodeTextInTable(bs[1..]);
    }
  }

  /** The byte of one character: its position in the table, or 0x00 when the table lacks it. */
  function EncodeChar(c: char): (b: byte)
    ensures b < |CharTable|
  {
    var m := ReverseCharMap();
    if c in m then m[c] else 0x00
  }

  /** A table character encodes to its own position. */
  lemma EncodeTableChar(b: nat)
    requires b < |CharTable|
    ensures EncodeChar(CharTable[b]) == b
  {
  }

  /** A character the table lacks encodes to 0x00. */
  lemma EncodeOtherChar(c: char)
    requires c !in CharTable
    ensures EncodeChar(c) == 0x00
  {
  }

  /** The bytes of an edited text: one byte per character, each one a table position. */
  function EncodeText(s: string): (r: seq<byte>)
    ensures |r| == |s| && InTable(r)
  {
    seq(|s|, i requires 0 <= i < |s| => EncodeChar(s[i]))
  }

  /** Re-encoding the decoded text of an entry gives its bytes back exactly when every byte is in the table. */
  lemma EncodeDecode(bs: seq<byte>)
    ensures EncodeText(DecodeText(bs)) == bs <==> InTable(bs)
  {
    DecodeTextLength(bs);
    if InTable(bs) {
      DecodeTextInTable(bs);
      var d := DecodeText(bs);
      var r := EncodeText(d);
      forall i | 0 <= i < |bs| ensures r[i] == bs[i] {
        assert d[i] == CharTable[bs[i]];
        EncodeTableChar(bs[i]);
      }
    }
  }

  /** Decoding an encoded text gives the text back, with every character the table lacks turned into a space. */
  lemma DecodeEncode(s: string)
    ensures DecodeText(EncodeText(s)) == seq(|s|, i requires 0 <= i < |s| => if s[i] in CharTable then s[i] else ' ')
  {
    var bs := EncodeText(s);
    DecodeTextInTable(bs);
    assert CharTable[0] == ' ';
    forall i | 0 <= i < |s| ensures CharTable[bs[i]] == if s[i] in CharTable then s[i] else ' ' {
      if s[i] in CharTable {
        var b :| 0 <= b < |CharTable| && CharTable[b] == s[i];
        EncodeTableChar(b);
      } else {
        EncodeOtherChar(s[i]);
      }
    }
  }

  // ---------------------------------------------------------------------------
  // Length prefixes

  /** The prefix formats offered by the editor: "1", "2-be" and "2-le". */
  datatype Format = OneByte | TwoBigEndian | TwoLittleEndian

  /** The format selected by its menu name; any name other than "1" and "2-be" reads as little-endian. */
  function FormatOf(name: string): (f: Format)
    ensures f == OneByte <==> name == "1"
    ensures f == TwoBigEndian <==> name == "2-be"
  {
    if name == "1" then OneByte
    else if name == "2-be" then TwoBigEndian
    else TwoLittleEndian
  }

  /** Number of bytes a prefix occupies. */
  function Width(f: Format): nat {
    if f == OneByte then 1 else 2
  }

  /** Number of distinct lengths a prefix can express. */
  function Capacity(f: Format): nat {
    if f == OneByte then 0x100 else 0x1_0000
  }

  /** The length stored in the prefix at `pos`. */
  function PrefixAt(data: seq<byte>, pos: nat, f: Format): (n: nat)
    requires pos + Width(f) <= |data|
    ensures n < Capacity(f)
  {
    match f
    case OneByte => data[pos]
    case TwoBigEndian => Word(data[pos], data[pos + 1])
    case TwoLittleEndian => Word(data[pos + 1], data[pos])
  }

  /** The 16-bit value with high byte `hi` and low byte `lo`. */
  function Word(hi: byte, lo: byte): (n: nat)
    ensures n < 0x1_0000
  {
    hi as int * 0x100 + lo as int
  }

  /** The prefix written for a text of `n` bytes; lengths beyond the capacity wrap around. */
  function EncodePrefix(n: nat, f: Format): (r: seq<byte>)
    ensures |r| == Width(f)
    ensures PrefixAt(r, 0, f) == n % Capacity(f)
  {
    match f
    case OneByte => [n % 0x100]
    case TwoBigEndian =>
      SplitWord(n);
      [(n / 0x100) % 0x100, n % 0x100]
    case TwoLittleEndian =>
      SplitWord(n);
      [n % 0x100, (n / 0x100) % 0x100]
  }

  lemma SplitWord(n: nat)
    ensures ((n / 0x100) % 0x100) * 0x100 + n % 0x100 == n % 0x1_0000
  {
    var q, r := n / 0x100, n % 0x100;
    assert n == q * 0x100 + r;
    var q2, r2 := q / 0x100, q % 0x100;
    assert q == q2 * 0x100 + r2;
    assert n == q2 * 0x1_0000 + (r2 * 0x100 + r);
    assert 0 <= r2 * 0x100 + r < 0x1_0000;
  }

  // ---------------------------------------------------------------------------
  // Scanning for texts

  /** A text located by the scan: where its prefix starts and the length the prefix announced. */
  datatype Hit = Hit(position: nat, length: nat)

  /** What the scan does at one cursor position. */
  datatype Step = Stop | Skip | Take(length: nat)

  /**
   * The decision at `pos`: stop when no full prefix remains; skip one byte when the
   * prefix reads 0 or more than 10000; stop when the announced text runs past the
   * end; otherwise take the text.
   */
  function StepAt(data: seq<byte>, pos: nat, f: Format): (s: Step)
    ensures s.Take? ==> 1 <= s.length <= MaxTextLength && pos + Width(f) + s.length <= |data|
                        && PrefixAt(data, pos, f) == s.length
    ensures s.Skip? ==> pos + Width(f) <= |data|
                        && (PrefixAt(data, pos, f) == 0 || PrefixAt(data, pos, f) > MaxTextLength)
    ensures s.Stop? <==> pos + Width(f) > |data| ||
                         (var n := PrefixAt(data, pos, f); 1 <= n <= MaxTextLength && pos + Width(f) + n > |data|)
  {
    if pos >= |data| || pos + Width(f) > |data| then Stop
    else
      var n := PrefixAt(data, pos, f);
      if n == 0 || n > MaxTextLength then Skip
      else if pos + Width(f) + n > |data| then Stop
      else Take(n)
  }

  /** The texts located by scanning `data` from `pos`, in buffer order. */
  function Scan(data: seq<byte>, pos: nat, f: Format): seq<Hit>
    decreases |data| - pos
  {
    match StepAt(data, pos, f)
    case Stop => []
    case Skip => Scan(data, pos + 1, f)
    case Take(n) => [Hit(pos, n)] + Scan(data, pos + Width(f) + n, f)
  }

  /** Byte just past the text of hit `h`. */
  function EndOf(h: Hit, f: Format): nat {
    h.position + Width(f) + h.length
  }

  /** Hit `h` is a text the scan accepts in `data`: 1..10000 bytes inside the buffer, announced by the prefix at its position. */
  predicate Accepted(data: seq<byte>, h: Hit, f: Format) {
    && EndOf(h, f) <= |data|
    && 1 <= h.length <= MaxTextLength
    && PrefixAt(data, h.position, f) == h.length
  }

  /** Every text located lies at or after the position the scan starts from. */
  lemma {:induction false} ScanFrom(data: seq<byte>, pos: nat, f: Format)
    ensures forall i | 0 <= i < |Scan(data, pos, f)| :: pos <= Scan(data, pos, f)[i].position
    decreases |data| - pos
  {
    match StepAt(data, pos, f)
    case Stop =>
    case Skip =>
      ScanFrom(data, pos + 1, f);
      assert Scan(data, pos, f) == Scan(data, pos + 1, f);
    case Take(n) =>
      var next := pos + Width(f) + n;
      ScanFrom(data, next, f);
      var hs, rest := Scan(data, pos, f), Scan(data, next, f);
      assert hs == [Hit(pos, n)] + rest;
      assert forall i | 1 <= i < |hs| :: hs[i] == rest[i - 1];
  }

  /** Every text located is one the scan accepts. */
  lemma {:induction false} ScanAccepted(data: seq<byte>, pos: nat, f: Format)
    ensures forall i | 0 <= i < |Scan(data, pos, f)| :: Accepted(data, Scan(data, pos, f)[i], f)
    decreases |data| - pos
  {
    match StepAt(data, pos, f)
    case Stop =>
    case Skip =>
      ScanAccepted(data, pos + 1, f);
      assert Scan(data, pos, f) == Scan(data, pos + 1, f);
    case Take(n) =>
      var next := pos + Width(f) + n;
      ScanAccepted(data, next, f);
      var hs, rest := Scan(data, pos, f), Scan(data, next, f);
      assert hs == [Hit(pos, n)] + rest;
      assert forall i | 1 <= i < |hs| :: hs[i] == rest[i - 1];
  }

  /** Hits come in buffer order and never overlap: each one ends before the next one's prefix. */
  predicate Ordered(hs: seq<Hit>, f: Format) {
    forall i, j | 0 <= i < j < |hs| :: EndOf(hs[i], f) <= hs[j].position
  }

  /** A hit ending before every hit of an ordered run can be put in front of it. */
  lemma OrderedCons(h: Hit, rest: seq<Hit>, f: Format)
    requires Ordered(rest, f)
    requires forall k | 0 <= k < |rest| :: EndOf(h, f) <= rest[k].position
    ensures Ordered([h] + rest, f)
  {
    var hs := [h] + rest;
    forall i, j | 0 <= i < j < |hs| ensures EndOf(hs[i], f) <= hs[j].position {
      assert hs[j] == rest[j - 1];
      if i > 0 {
        assert hs[i] == rest[i - 1];
      }
    }
  }

  /** Texts come in buffer order and never overlap. */
  lemma {:induction false} ScanOrdered(data: seq<byte>, pos: nat, f: Format)
    ensures Ordered(Scan(data, pos, f), f)
    decreases |data| - pos
  {
    match StepAt(data, pos, f)
    case Stop =>
    case Skip =>
      ScanOrdered(data, pos + 1, f);
      assert Scan(data, pos, f) == Scan(data, pos + 1, f);
    case Take(n) =>
      var next := pos + Width(f) + n;
      ScanOrdered(data, next, f);
      ScanFrom(data, next, f);
      ScanTake(data, pos, n, f);
      OrderedCons(Hit(pos, n), Scan(data, next, f), f);
  }

  /** The scan finds nothing once fewer bytes than a prefix remain, or once an acceptable prefix
      announces a text that runs past the end. */
  lemma ScanStops(data: seq<byte>, pos: nat, f: Format)
    requires pos + Width(f) > |data| ||
             (var n := PrefixAt(data, pos, f); 1 <= n <= MaxTextLength && pos + Width(f) + n > |data|)
    ensures Scan(data, pos, f) == []
  {
  }

  /** A prefix reading 0 or more than 10000 records nothing at `pos`: the scan resumes one byte later. */
  lemma ScanSkipsRejectedPrefix(data: seq<byte>, pos: nat, f: Format)
    requires pos + Width(f) <= |data|
    requires PrefixAt(data, pos, f) == 0 || PrefixAt(data, pos, f) > MaxTextLength
    ensures Scan(data, pos, f) == Scan(data, pos + 1, f)
    ensures forall i | 0 <= i < |Scan(data, pos, f)| :: Scan(data, pos, f)[i].position > pos
  {
    ScanFrom(data, pos + 1, f);
  }

  // ---------------------------------------------------------------------------
  // Entries

  /** One entry of the editor: where its prefix starts, its bytes, its text and the length found by the scan. */
  datatype TextEntry = TextEntry(position: nat, textBytes: seq<byte>, text: string, originalLength: nat)

  /** The entry made for a hit inside the buffer: the bytes after the prefix, and their decoded text. */
  function EntryOf(data: seq<byte>, h: Hit, f: Format): TextEntry
    requires EndOf(h, f) <= |data|
  {
    var bytes := data[h.position + Width(f)..h.position + Width(f) + h.length];
    TextEntry(h.position, bytes, DecodeText(bytes), h.length)
  }

  /** Every hit lies inside the buffer. */
  predicate InBuffer(data: seq<byte>, hs: seq<Hit>, f: Format) {
    forall i | 0 <= i < |hs| :: EndOf(hs[i], f) <= |data|
  }

  /** One entry per hit, in hit order. */
  function Entries(data: seq<byte>, hs: seq<Hit>, f: Format): (es: seq<TextEntry>)
    requires InBuffer(data, hs, f)
    ensures |es| == |hs|
  {
    seq(|hs|, i requires 0 <= i < |hs| => EntryOf(data, hs[i], f))
  }

  /** The entries of a run of hits led by `h`: the entry of `h`, then those of the rest. */
  lemma {:induction false} EntriesCons(data: seq<byte>, h: Hit, rest: seq<Hit>, f: Format)
    requires EndOf(h, f) <= |data| && InBuffer(data, rest, f)
    ensures InBuffer(data, [h] + rest, f)
    ensures Entries(data, [h] + rest, f) == [EntryOf(data, h, f)] + Entries(data, rest, f)
  {
    var hs := [h] + rest;
    assert forall k | 1 <= k < |hs| :: hs[k] == rest[k - 1];
    ConsEqual(Entries(data, hs, f), EntryOf(data, h, f), Entries(data, rest, f));
  }


  /** The entries of the editor after parsing `data` from `offset`: one per text located, in buffer order. */
  function Parse(data: seq<byte>, offset: nat, f: Format): seq<TextEntry> {
    ScanAccepted(data, offset, f);
    Entries(data, Scan(data, offset, f), f)
  }

  /** Entry `i` of the parse is the entry of the i-th text located, and that text is accepted. */
  lemma ParseEntryAt(data: seq<byte>, offset: nat, f: Format, i: nat)
    requires i < |Parse(data, offset, f)|
    ensures i < |Scan(data, offset, f)|
    ensures Accepted(data, Scan(data, offset, f)[i], f) && offset <= Scan(data, offset, f)[i].position
    ensures Parse(data, offset, f)[i] == EntryOf(data, Scan(data, offset, f)[i], f)
  {
    ScanAccepted(data, offset, f);
    ScanFrom(data, offset, f);
  }

  /**
   * Every parsed entry is well formed: it sits at or after the offset and holds 1..10000
   * bytes read from right after a prefix announcing their number, and its text is their
   * decoding.
   */
  lemma ParseWellFormed(data: seq<byte>, offset: nat, f: Format, i: nat)
    requires i < |Parse(data, offset, f)|
    ensures var e := Parse(data, offset, f)[i];
      && offset <= e.position
      && e.position + Width(f) + |e.textBytes| <= |data|
      && 1 <= |e.textBytes| <= MaxTextLength && e.originalLength == |e.textBytes|
      && PrefixAt(data, e.position, f) == |e.textBytes|
      && e.textBytes == data[e.position + Width(f)..e.position + Width(f) + |e.textBytes|]
      && e.text == DecodeText(e.textBytes)
  {
    ParseEntryAt(data, offset, f, i);
  }

  /** Parsed entries follow each other in the buffer: each text ends before the next entry's prefix. */
  lemma ParseNonOverlapping(data: seq<byte>, offset: nat, f: Format, i: nat)
    requires i + 1 < |Parse(data, offset, f)|
    ensures var es := Parse(data, offset, f);
      es[i].position + Width(f) + |es[i].textBytes| <= es[i + 1].position
  {
    ParseEntryAt(data, offset, f, i);
    ParseEntryAt(data, offset, f, i + 1);
    ScanOrdered(data, offset, f);
  }

  // ---------------------------------------------------------------------------
  // Serialising

  /** The bytes of each entry, in entry order. */
  function Payloads(entries: seq<TextEntry>): (ps: seq<seq<byte>>)
    ensures |ps| == |entries|
    ensures forall i | 0 <= i < |entries| :: ps[i] == entries[i].textBytes
  {
    seq(|entries|, i requires 0 <= i < |entries| => entries[i].textBytes)
  }

  /** A run of records: each payload preceded by a prefix holding its length. */
  function Records(payloads: seq<seq<byte>>, f: Format): seq<byte> {
    if payloads == [] then []
    else EncodePrefix(|payloads[0]|, f) + payloads[0] + Records(payloads[1..], f)
  }

  /** Total size of the records for `payloads`. */
  function RecordsSize(payloads: seq<seq<byte>>, f: Format): nat {
    if payloads == [] then 0 else Width(f) + |payloads[0]| + RecordsSize(payloads[1..], f)
  }

  /** Records of two runs laid end to end are the records of the joined runs. */
  lemma {:induction false} RecordsAppend(a: seq<seq<byte>>, b: seq<seq<byte>>, f: Format)
    ensures Records(a + b, f) == Records(a, f) + Records(b, f)
  {
    if a == [] {
      assert a + b == b;
    } else {
      var x := a[0];
      assert (a + b)[0] == x;
      assert (a + b)[1..] == a[1..] + b;
      RecordsAppend(a[1..], b, f);
      calc {
        Records(a + b, f);
        EncodePrefix(|x|, f) + x + Records(a[1..] + b, f);
        EncodePrefix(|x|, f) + x + (Records(a[1..], f) + Records(b, f));
        Records(a, f) + Records(b, f);
      }
    }
  }

  /** The records take one prefix plus the payload's bytes per payload. */
  lemma {:induction false} RecordsLength(payloads: seq<seq<byte>>, f: Format)
    ensures |Records(payloads, f)| == RecordsSize(payloads, f)
  {
    if payloads != [] {
      RecordsLength(payloads[1..], f);
    }
  }

  /** Record `i` sits, prefix first, right after the records before it. */
  lemma RecordsAt(payloads: seq<seq<byte>>, i: nat, f: Format)
    requires i < |payloads|
    ensures Records(payloads, f) ==
              Records(payloads[..i], f) + EncodePrefix(|payloads[i]|, f) + payloads[i] + Records(payloads[i + 1..], f)
  {
    assert payloads == payloads[..i] + payloads[i..];
    RecordsAppend(payloads[..i], payloads[i..], f);
    assert payloads[i..][1..] == payloads[i + 1..];
  }

  /** The header kept by loading: the first `offset` bytes, when 0 < offset <= file length. */
  function CapturedHeader(data: seq<byte>, offset: nat): (h: Option<seq<byte>>)
    ensures h.Some? <==> 0 < offset <= |data|
    ensures h.Some? ==> h.value != [] && h.value == data[..offset]
  {
    if 0 < offset <= |data| then Some(data[..offset]) else None
  }

  /** The header bytes written by export: only when "preserve" is set and a non-empty header was captured. */
  function HeaderToEmit(header: Option<seq<byte>>, preserve: bool): (r: seq<byte>)
    ensures r != [] <==> preserve && header.Some? && header.value != []
    ensures r != [] ==> r == header.value
  {
    if preserve && header.Some? && header.value != [] then header.value else []
  }

  /** The exported file: the header, if emitted, then every entry's prefix and bytes in entry order. */
  function ExportBytes(header: Option<seq<byte>>, preserve: bool, entries: seq<TextEntry>, f: Format): (r: seq<byte>)
    ensures |r| == |HeaderToEmit(header, preserve)| + RecordsSize(Payloads(entries), f)
    ensures r[..|HeaderToEmit(header, preserve)|] == HeaderToEmit(header, preserve)
    ensures r[|HeaderToEmit(header, preserve)|..] == Records(Payloads(entries), f)
  {
    RecordsLength(Payloads(entries), f);
    HeaderToEmit(header, preserve) + Records(Payloads(entries), f)
  }

  /** Reading back the prefix written for a length the format can hold gives that length. */
  lemma PrefixRoundTrip(n: nat, f: Format, rest: seq<byte>)
    requires n < Capacity(f)
    ensures PrefixAt(EncodePrefix(n, f) + rest, 0, f) == n
  {
    var p := EncodePrefix(n, f);
    assert (p + rest)[0] == p[0];
    assert Width(f) == 2 ==> (p + rest)[1] == p[1];
  }

  /** A payload the format can carry and the scan accepts. */
  predicate Encodable(payload: seq<byte>, f: Format) {
    1 <= |payload| <= MaxTextLength && |payload| < Capacity(f)
  }

  /** Hit `h` locates payload `p` in `data`. */
  predicate Locates(data: seq<byte>, h: Hit, p: seq<byte>, f: Format) {
    EndOf(h, f) <= |data| && data[h.position + Width(f)..EndOf(h, f)] == p
  }

  /** At the start of an acceptable record the scan takes exactly that record. */
  lemma ScanTakesRecord(data: seq<byte>, pos: nat, p: seq<byte>, tail: seq<byte>, f: Format)
    requires pos <= |data| && data[pos..] == EncodePrefix(|p|, f) + p + tail
    requires Encodable(p, f)
    ensures StepAt(data, pos, f) == Take(|p|)
    ensures Locates(data, Hit(pos, |p|), p, f)
    ensures data[pos + Width(f) + |p|..] == tail
  {
    var w := Width(f);
    var rec := EncodePrefix(|p|, f) + (p + tail);
    assert data[pos..] == rec;
    PrefixRoundTrip(|p|, f, p + tail);
    PrefixAtSuffix(data, pos, f);
    SliceOfSuffix(data, pos, w, w + |p|);
    assert rec[w..w + |p|] == p;
    assert rec[w + |p|..] == tail;
  }

  /** Reading a prefix at `pos` is reading it at the start of the bytes from `pos` on. */
  lemma PrefixAtSuffix(data: seq<byte>, pos: nat, f: Format)
    requires pos + Width(f) <= |data|
    ensures PrefixAt(data, pos, f) == PrefixAt(data[pos..], 0, f)
  {
  }

  lemma SliceOfSuffix(data: seq<byte>, pos: nat, lo: nat, hi: nat)
    requires pos + hi <= |data| && lo <= hi
    ensures data[pos + lo..pos + hi] == data[pos..][lo..hi]
    ensures data[pos + hi..] == data[pos..][hi..]
  {
  }

  /** Where the scan takes a text, it records it and goes on right after it. */
  lemma ScanTake(data: seq<byte>, pos: nat, n: nat, f: Format)
    requires StepAt(data, pos, f) == Take(n)
    ensures Scan(data, pos, f) == [Hit(pos, n)] + Scan(data, pos + Width(f) + n, f)
  {
  }

  /** Where the scan takes a text, the parse starts with its entry and goes on from just past it. */
  lemma {:induction false} ParseTake(data: seq<byte>, pos: nat, n: nat, f: Format, next: nat)
    requires StepAt(data, pos, f) == Take(n) && next == pos + Width(f) + n
    ensures next <= |data|
    ensures Parse(data, pos, f) == [EntryOf(data, Hit(pos, n), f)] + Parse(data, next, f)
  {
    ScanTake(data, pos, n, f);
    ScanAccepted(data, next, f);
    EntriesCons(data, Hit(pos, n), Scan(data, next, f), f);
  }

  /** Where the records for `payloads` start when laid out from `pos`: one hit per record. */
  function RecordHits(pos: nat, payloads: seq<seq<byte>>, f: Format): (hs: seq<Hit>)
    ensures |hs| == |payloads|
    decreases payloads
  {
    if payloads == [] then []
    else [Hit(pos, |payloads[0]|)] + RecordHits(pos + Width(f) + |payloads[0]|, payloads[1..], f)
  }

  /** Scanning an exact run of acceptable records finds exactly the records' hits. */
  lemma {:induction false} ScanRecords(data: seq<byte>, pos: nat, payloads: seq<seq<byte>>, f: Format)
    requires pos <= |data| && data[pos..] == Records(payloads, f)
    requires forall i | 0 <= i < |payloads| :: Encodable(payloads[i], f)
    ensures Scan(data, pos, f) == RecordHits(pos, payloads, f)
    decreases payloads
  {
    if payloads == [] {
      assert |data[pos..]| == 0;
    } else {
      var next := pos + Width(f) + |payloads[0]|;
      ScanTakesRecord(data, pos, payloads[0], Records(payloads[1..], f), f);
      ScanRecords(data, next, payloads[1..], f);
      ScanRecordsCons(data, pos, payloads, f);
    }
  }

  /** The inductive step of ScanRecords: one more record in front of a run already scanned. */
  lemma ScanRecordsCons(data: seq<byte>, pos: nat, payloads: seq<seq<byte>>, f: Format)
    requires payloads != [] && StepAt(data, pos, f) == Take(|payloads[0]|)
    requires var next := pos + Width(f) + |payloads[0]|;
      Scan(data, next, f) == RecordHits(next, payloads[1..], f)
    ensures Scan(data, pos, f) == RecordHits(pos, payloads, f)
  {
    ScanTake(data, pos, |payloads[0]|, f);
  }

  /** Each hit of `hs` locates the payload of the same index. */
  predicate AllLocate(data: seq<byte>, hs: seq<Hit>, payloads: seq<seq<byte>>, f: Format) {
    |hs| == |payloads| && forall i | 0 <= i < |hs| :: Locates(data, hs[i], payloads[i], f)
  }

  /** Each record hit locates its payload. */
  lemma {:induction false} RecordHitsLocate(data: seq<byte>, pos: nat, payloads: seq<seq<byte>>, f: Format)
    requires pos <= |data| && data[pos..] == Records(payloads, f)
    requires forall i | 0 <= i < |payloads| :: Encodable(payloads[i], f)
    ensures AllLocate(data, RecordHits(pos, payloads, f), payloads, f)
    decreases payloads
  {
    if payloads != [] {
      var next := pos + Width(f) + |payloads[0]|;
      ScanTakesRecord(data, pos, payloads[0], Records(payloads[1..], f), f);
      RecordHitsLocate(data, next, payloads[1..], f);
      RecordHitsLocateCons(data, pos, payloads, f);
    }
  }

  /** The inductive step of RecordHitsLocate. */
  lemma RecordHitsLocateCons(data: seq<byte>, pos: nat, payloads: seq<seq<byte>>, f: Format)
    requires payloads != [] && Locates(data, Hit(pos, |payloads[0]|), payloads[0], f)
    requires AllLocate(data, RecordHits(pos + Width(f) + |payloads[0]|, payloads[1..], f), payloads[1..], f)
    ensures AllLocate(data, RecordHits(pos, payloads, f), payloads, f)
  {
    var hs := RecordHits(pos, payloads, f);
    var rest := RecordHits(pos + Width(f) + |payloads[0]|, payloads[1..], f);
    forall i | 1 <= i < |hs| ensures Locates(data, hs[i], payloads[i], f) {
      assert hs[i] == rest[i - 1] && payloads[i] == payloads[1..][i - 1];
    }
  }

  /** Parsing an exact run of acceptable records gives entries carrying exactly those payloads. */
  lemma ParseRecords(data: seq<byte>, offset: nat, payloads: seq<seq<byte>>, f: Format)
    requires offset <= |data| && data[offset..] == Records(payloads, f)
    requires forall i | 0 <= i < |payloads| :: Encodable(payloads[i], f)
    ensures Payloads(Parse(data, offset, f)) == payloads
  {
    ScanRecords(data, offset, payloads, f);
    RecordHitsLocate(data, offset, payloads, f);
    ScanAccepted(data, offset, f);
    var es := Parse(data, offset, f);
    var hs := Scan(data, offset, f);
    forall i | 0 <= i < |es| ensures es[i].textBytes == payloads[i] {
      assert Locates(data, hs[i], payloads[i], f);
    }
  }

  /**
   * When the bytes after the header are an exact run of acceptable records, parsing and then
   * exporting with the header preserved reproduces the file byte for byte.
   */
  lemma ParseExportRoundTrip(data: seq<byte>, offset: nat, payloads: seq<seq<byte>>, f: Format)
    requires offset <= |data| && data[offset..] == Records(payloads, f)
    requires forall i | 0 <= i < |payloads| :: Encodable(payloads[i], f)
    ensures ExportBytes(CapturedHeader(data, offset), true, Parse(data, offset, f), f) == data
  {
    ParseRecords(data, offset, payloads, f);
    ExportOfRecords(data, offset, Parse(data, offset, f), payloads, f);
  }

  /** Exporting entries that carry the records after the offset, behind the captured header, rebuilds the file. */
  lemma ExportOfRecords(data: seq<byte>, offset: nat, es: seq<TextEntry>, payloads: seq<seq<byte>>, f: Format)
    requires offset <= |data| && data[offset..] == Records(payloads, f) && Payloads(es) == payloads
    ensures ExportBytes(CapturedHeader(data, offset), true, es, f) == data
  {
    assert HeaderToEmit(CapturedHeader(data, offset), true) == data[..offset];
    calc {
      ExportBytes(CapturedHeader(data, offset), true, es, f);
      data[..offset] + Records(Payloads(es), f);
      data[..offset] + data[offset..];
      data;
    }
  }


  // ---------------------------------------------------------------------------
  // Updating entries from edited texts

  /** Entry `e` carrying the edited `text` and the bytes it encodes to; its position is kept. */
  function Retexted(e: TextEntry, text: string): TextEntry {
    e.(text := text, textBytes := EncodeText(text))
  }

  /** The entries after importing `texts`: the first min(|texts|, |entries|) take the new texts. */
  function Imported(entries: seq<TextEntry>, texts: seq<string>): (r: seq<TextEntry>)
    ensures |r| == |entries|
    ensures forall i | 0 <= i < |r| ::
              r[i].position == entries[i].position && r[i].originalLength == entries[i].originalLength
    ensures forall i | 0 <= i < |r| && i < |texts| ::
              r[i].text == texts[i] && r[i].textBytes == EncodeText(texts[i])
    ensures forall i | |texts| <= i < |r| :: r[i] == entries[i]
  {
    seq(|entries|, i requires 0 <= i < |entries| => if i < |texts| then Retexted(entries[i], texts[i]) else entries[i])
  }

  /** The texts written to JSON: one per entry, in entry order. */
  function ExportedTexts(entries: seq<TextEntry>): (texts: seq<string>)
    ensures |texts| == |entries|
    ensures forall i | 0 <= i < |entries| :: texts[i] == entries[i].text
  {
    seq(|entries|, i requires 0 <= i < |entries| => entries[i].text)
  }

  /** Importing the exported texts of parsed entries whose bytes all lie in the table changes nothing. */
  lemma ImportExportedTexts(data: seq<byte>, offset: nat, f: Format)
    requires forall e | e in Parse(data, offset, f) :: InTable(e.textBytes)
    ensures var es := Parse(data, offset, f); Imported(es, ExportedTexts(es)) == es
  {
    var es := Parse(data, offset, f);
    var r := Imported(es, ExportedTexts(es));
    forall i | 0 <= i < |es| ensures r[i] == es[i] {
      assert es[i] in es;
      ParseWellFormed(data, offset, f, i);
      EncodeDecode(es[i].textBytes);
      assert r[i] == Retexted(es[i], es[i].text);
    }
  }
}
