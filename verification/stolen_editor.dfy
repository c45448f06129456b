/**
 * The state of the "StolenIn60Secs" text editor and the operations its buttons run:
 * loading a file, parsing its texts, editing one text, exporting the binary file,
 * and exporting or importing the texts as a JSON list.
 */
module StolenEditor {
  import opened Wrappers
  import opened Bytes
  import opened StolenCodec
  import opened PyInts
  import opened SeqFacts

  // What the scan proves about one cursor position, stated on Parse.

  lemma ParseStop(data: seq<byte>, pos: nat, f: Format)
    requires StepAt(data, pos, f) == Stop
    ensures Parse(data, pos, f) == []
  {
  }

  lemma ParseSkip(data: seq<byte>, pos: nat, f: Format)
    requires StepAt(data, pos, f) == Skip
    ensures Parse(data, pos, f) == Parse(data, pos + 1, f)
  {
    assert Scan(data, pos, f) == Scan(data, pos + 1, f);
  }

  /** The parse invariant survives skipping a rejected prefix. */
  lemma ParseSkipStep(data: seq<byte>, offset: nat, pos: nat, f: Format, entries: seq<TextEntry>)
    requires StepAt(data, pos, f) == Skip
    requires entries + Parse(data, pos, f) == Parse(data, offset, f)
    ensures entries + Parse(data, pos + 1, f) == Parse(data, offset, f)
  {
    ParseSkip(data, pos, f);
  }

  /** The parse invariant survives taking the `n` bytes from `start` to `end` after the prefix at `pos`. */
  lemma ParseTakeStep(data: seq<byte>, offset: nat, pos: nat, n: nat, f: Format,
                      entries: seq<TextEntry>, start: nat, end: nat)
    requires StepAt(data, pos, f) == Take(n)
    requires entries + Parse(data, pos, f) == Parse(data, offset, f)
    requires start == pos + Width(f) && end == start + n
    ensures end <= |data|
    ensures (entries + [TextEntry(pos, data[start..end], DecodeText(data[start..end]), |data[start..end]|)])
            + Parse(data, end, f) == Parse(data, offset, f)
  {
    var entry := TextEntry(pos, data[start..end], DecodeText(data[start..end]), |data[start..end]|);
    ParseTake(data, pos, n, f, end);
    EntryOfHit(data, pos, n, f, start, end);
    SnocAssoc(entries, entry, Parse(data, end, f));
  }

  /** The entry of the hit at `pos`, stated on the bounds of its bytes. */
  lemma {:induction false} EntryOfHit(data: seq<byte>, pos: nat, n: nat, f: Format, start: nat, end: nat)
    requires start == pos + Width(f) && end == start + n && end <= |data|
    ensures EntryOf(data, Hit(pos, n), f)
         == TextEntry(pos, data[start..end], DecodeText(data[start..end]), |data[start..end]|)
  {
    EntryBytes(data, pos, n, f, start, end);
    SameFields(EntryOf(data, Hit(pos, n), f), pos, data[start..end], DecodeText(data[start..end]), |data[start..end]|);
  }

  lemma {:induction false} EntryBytes(data: seq<byte>, pos: nat, n: nat, f: Format, start: nat, end: nat)
    requires start == pos + Width(f) && end == start + n && end <= |data|
    ensures EntryOf(data, Hit(pos, n), f).textBytes == data[start..end]
  {
  }

  lemma SameFields(e: TextEntry, position: nat, bytes: seq<byte>, text: string, length: nat)
    requires e.position == position && e.textBytes == bytes && e.text == text && e.originalLength == length
    ensures e == TextEntry(position, bytes, text, length)
  {
  }

  /** The prefix bytes the exporter appends for a text of `n` bytes, as Python's `&` and `>>`
      compute them, are the prefix the scan reads back as `n` modulo the capacity. */
  lemma ExportPrefixBytes(n: nat, f: Format)
    ensures f == OneByte ==> EncodePrefix(n, f) == [BitAnd(n, 0xFF)]
    ensures f == TwoBigEndian ==> EncodePrefix(n, f) == [BitAnd(ShiftRight(n, 8), 0xFF), BitAnd(n, 0xFF)]
    ensures f == TwoLittleEndian ==> EncodePrefix(n, f) == [BitAnd(n, 0xFF), BitAnd(ShiftRight(n, 8), 0xFF)]
  {
    assert Pow2(8) == 0x100;
    MaskLow(n, 8);
    ShiftRightDiv(n, 8);
    MaskLow(n / 0x100, 8);
  }

  /** The prefix value the parser computes with `(hi << 8) | lo` is the 16-bit word of the two bytes. */
  lemma WordBits(hi: byte, lo: byte)
    ensures BitOr(ShiftLeft(hi, 8), lo) == Word(hi, lo)
  {
    assert Pow2(8) == 0x100;
    OrBelow(hi, lo, 8);
  }

  /** Appending record `k` to the records before it. */
  lemma RecordsSnoc(payloads: seq<seq<byte>>, k: nat, f: Format)
    requires k < |payloads|
    ensures Records(payloads[..k + 1], f) == Records(payloads[..k], f) + EncodePrefix(|payloads[k]|, f) + payloads[k]
  {
    assert payloads[..k + 1] == payloads[..k] + [payloads[k]];
    RecordsAppend(payloads[..k], [payloads[k]], f);
    assert Records([payloads[k]], f) == EncodePrefix(|payloads[k]|, f) + payloads[k] + Records([], f);
  }

  /**
   * Reads the length prefix at `pos` (`pos` inside the buffer): one byte, or two bytes
   * big- or little-endian. A two-byte prefix on the last byte is incomplete.
   */
  method ReadPrefix(data: seq<byte>, pos: nat, f: Format) returns (complete: bool, textLength: nat, headerSize: nat)
    requires pos < |data|
    ensures headerSize == Width(f)
    ensures complete <==> pos + Width(f) <= |data|
    ensures complete ==> textLength == PrefixAt(data, pos, f)
  {
    complete := true;
    if f == OneByte {
      textLength := data[pos];
      headerSize := 1;
    } else if f == TwoBigEndian {
      headerSize := 2;
      if pos + 1 >= |data| {
        return false, 0, headerSize;
      }
      textLength := BitOr(ShiftLeft(data[pos], 8), data[pos + 1]);
      WordBits(data[pos], data[pos + 1]);
    } else {
      headerSize := 2;
      if pos + 1 >= |data| {
        return false, 0, headerSize;
      }
      textLength := BitOr(ShiftLeft(data[pos + 1], 8), data[pos]);
      WordBits(data[pos + 1], data[pos]);
    }
  }

  class GameTextEditor {
    /** The first `offset` bytes of the loaded file, once a load captured them. */
    var fileHeader: Option<seq<byte>>
    /** The whole loaded file; empty before any load. */
    var rawFileBytes: seq<byte>
    /** The texts found by the last parse, in file order, with any edits applied. */
    var textEntries: seq<TextEntry>

    constructor ()
      ensures fileHeader == None && rawFileBytes == [] && textEntries == []
    {
      fileHeader := None;
      rawFileBytes := [];
      textEntries := [];
    }

    /**
     * Loads `contents`. The header is captured only when 0 < offset <= file length;
     * otherwise the header of an earlier load stays in place. Entries are kept.
     */
    method LoadFile(contents: seq<byte>, offset: nat)
      modifies this
      ensures rawFileBytes == contents
      ensures 0 < offset <= |contents| ==> fileHeader == Some(contents[..offset])
      ensures !(0 < offset <= |contents|) ==> fileHeader == old(fileHeader)
      ensures textEntries == old(textEntries)
    {
      rawFileBytes := contents;
      if offset > 0 && offset <= |rawFileBytes| {
        fileHeader := Some(rawFileBytes[..offset]);
      }
    }

    /**
     * Scans the loaded file from `offset` for length-prefixed texts and replaces the
     * entries with those found. Does nothing when no file (or an empty one) is loaded.
     */
    method ParseTexts(offset: nat, f: Format)
      modifies this
      ensures rawFileBytes == old(rawFileBytes) && fileHeader == old(fileHeader)
      ensures rawFileBytes == [] ==> textEntries == old(textEntries)
      ensures rawFileBytes != [] ==> textEntries == Parse(rawFileBytes, offset, f)
    {
      if rawFileBytes == [] {
        return;
      }
      textEntries := [];
      var pos := offset;
      var data := rawFileBytes;
      ghost var all := Parse(data, offset, f);
      while pos < |data|
        invariant data == rawFileBytes == old(rawFileBytes) && fileHeader == old(fileHeader)
        invariant textEntries + Parse(data, pos, f) == all
        decreases |data| - pos
      {
        var complete, textLength, headerSize := ReadPrefix(data, pos, f);
        if !complete {
          ParseStop(data, pos, f);
          break;
        }

        if textLength == 0 || textLength > MaxTextLength {
          ParseSkipStep(data, offset, pos, f, textEntries);
          pos := pos + 1;
          continue;
        }

        var textStart := pos + headerSize;
        var textEnd := textStart + textLength;
        if textEnd > |data| {
          ParseStop(data, pos, f);
          break;
        }

        var textBytes := data[textStart..textEnd];
        var text := DecodeText(textBytes);
        ParseTakeStep(data, offset, pos, textLength, f, textEntries, textStart, textEnd);
        textEntries := textEntries + [TextEntry(pos, textBytes, text, |textBytes|)];
        pos := textEnd;
      }
      if pos >= |data| {
        ParseStop(data, pos, f);
      }
      assert textEntries == Parse(data, offset, f);
    }

    /**
     * Replaces the text of entry `index` with `newText` and its bytes with the
     * encoding of `newText`, one byte per character (0x00 where the table lacks it).
     */
    method UpdateText(index: nat, newText: string)
      requires index < |textEntries|
      modifies this
      ensures rawFileBytes == old(rawFileBytes) && fileHeader == old(fileHeader)
      ensures textEntries == old(textEntries)[index := Retexted(old(textEntries)[index], newText)]
    {
      var newBytes: seq<byte> := [];
      for i := 0 to |newText|
        invariant |newBytes| == i
        invariant forall k | 0 <= k < i :: newBytes[k] == EncodeChar(newText[k])
      {
        newBytes := newBytes + [EncodeChar(newText[i])];
      }
      assert newBytes == EncodeText(newText);
      var entry := textEntries[index];
      textEntries := textEntries[index := entry.(text := newText, textBytes := newBytes)];
    }

    /**
     * The bytes of the exported file: nothing when there are no entries; otherwise the
     * header when `preserve` is set and one was captured, then each entry's prefix and bytes.
     */
    method ExportFile(preserve: bool, f: Format) returns (out: Option<seq<byte>>)
      ensures textEntries == [] <==> out.None?
      ensures out.Some? ==> out.value == ExportBytes(fileHeader, preserve, textEntries, f)
    {
      if textEntries == [] {
        return None;
      }
      var finalBytes: seq<byte> := [];
      if preserve && fileHeader.Some? && fileHeader.value != [] {
        finalBytes := finalBytes + fileHeader.value;
      }
      ghost var header := finalBytes;
      ghost var payloads := Payloads(textEntries);
      for k := 0 to |textEntries|
        invariant finalBytes == header + Records(payloads[..k], f)
      {
        var entry := textEntries[k];
        var textLength := |entry.textBytes|;
        ExportPrefixBytes(textLength, f);
        var prefix: seq<byte>;
        if f == OneByte {
          prefix := [BitAnd(textLength, 0xFF)];
        } else if f == TwoBigEndian {
          prefix := [BitAnd(ShiftRight(textLength, 8), 0xFF), BitAnd(textLength, 0xFF)];
        } else {
          prefix := [BitAnd(textLength, 0xFF), BitAnd(ShiftRight(textLength, 8), 0xFF)];
        }
        assert prefix == EncodePrefix(|payloads[k]|, f);
        RecordsSnoc(payloads, k, f);
        ghost var before := Records(payloads[..k], f);
        ConcatAssoc(header, before, prefix, entry.textBytes);
        finalBytes := finalBytes + prefix + entry.textBytes;
      }
      assert payloads[..|textEntries|] == payloads;
      return Some(finalBytes);
    }

    /** The JSON list of texts: nothing when there are no entries, else one text per entry in order. */
    function ExportJson(): (out: Option<seq<string>>)
      reads this
      ensures textEntries == [] <==> out.None?
      ensures out.Some? ==> |out.value| == |textEntries| &&
                            forall i | 0 <= i < |textEntries| :: out.value[i] == textEntries[i].text
    {
      if textEntries == [] then None else Some(ExportedTexts(textEntries))
    }

    /**
     * Takes the texts of a JSON list: entry i (for i below both lengths) gets text i and
     * its encoding; further entries and texts are ignored. Does nothing without entries.
     */
    method ImportJson(texts: seq<string>)
      modifies this
      ensures rawFileBytes == old(rawFileBytes) && fileHeader == old(fileHeader)
      ensures textEntries == Imported(old(textEntries), texts)
    {
      if textEntries == [] {
        return;
      }
      ghost var entries0 := textEntries;
      var maxLen := if |texts| < |textEntries| then |texts| else |textEntries|;
      for i := 0 to maxLen
        invariant rawFileBytes == old(rawFileBytes) && fileHeader == old(fileHeader)
        invariant textEntries == Imported(entries0, texts[..i])
      {
        var entry := textEntries[i];
        var newText := texts[i];
        var newBytes := EncodeText(newText);
        textEntries := textEntries[i := entry.(text := newText, textBytes := newBytes)];
        assert textEntries == Imported(entries0, texts[..i + 1]) by {
          var r := Imported(entries0, texts[..i + 1]);
          forall k | 0 <= k < |r| ensures r[k] == textEntries[k] {
            if k < i {
              assert texts[..i + 1][k] == texts[..i][k];
            }
          }
        }
      }
      assert Imported(entries0, texts[..maxLen]) == Imported(entries0, texts) by {
        var a, b := Imported(entries0, texts[..maxLen]), Imported(entries0, texts);
        forall k | 0 <= k < |a| ensures a[k] == b[k] {
          if k < maxLen {
            assert texts[..maxLen][k] == texts[k];
          }
        }
      }
    }
  }

  /**
   * Loading a file, parsing it and exporting it again with the header preserved gives
   * the file back, whenever the bytes after the offset are an exact, non-empty run of
   * acceptable records.
   */
  method ReexportUnchanged(contents: seq<byte>, offset: nat, f: Format, payloads: seq<seq<byte>>)
    returns (out: Option<seq<byte>>)
    requires offset <= |contents| && contents[offset..] == Records(payloads, f)
    requires payloads != [] && forall i | 0 <= i < |payloads| :: Encodable(payloads[i], f)
    ensures out == Some(contents)
  {
    var editor := new GameTextEditor();
    editor.LoadFile(contents, offset);
    ScanRecords(contents, offset, payloads, f);
    assert |contents[offset..]| > 0;
    editor.ParseTexts(offset, f);
    out := editor.ExportFile(true, f);
    ParseExportRoundTrip(contents, offset, payloads, f);
    assert editor.fileHeader == CapturedHeader(contents, offset);
  }
}
