/** The reader of the language table: one record per line, the fields
    separated by `;`. The table's resource stream is given as its lines. */
module WindowsLanguageService {
  import opened Wrappers
  import opened Text
  import opened Numbers
  import opened WindowsLanguageData

  const SPLIT_CHAR: char := ';'

  /** `uint.TryParse(s, out var r) ? r : 0`. */
  function UIntOrZero(s: string): (n: UInt32)
  {
    match TryParseUInt32(s)
    case Some(v) => v
    case None => 0
  }

  /** One line of the table: parts 0, 1, 2 and 4 copied, parts 3 and 5
      parsed; a line of fewer than six parts indexes past the split array. */
  function ParseLine(line: string): Result<Language>
  {
    var parts := Split(line, SPLIT_CHAR);
    if |parts| < 6 then Err(IndexOutOfRange)
    else Ok(Language(Some(parts[0]), Some(parts[1]), Some(parts[2]), UIntOrZero(parts[3]),
                     Some(parts[4]), UIntOrZero(parts[5])))
  }

  /** The records of `lines`, in order; the first failing line aborts the read. */
  function ParseLines(lines: seq<string>): Result<seq<Language>>
  {
    if lines == [] then Ok([])
    else
      match ParseLines(lines[..|lines| - 1])
      case Err(e) => Err(e)
      case Ok(ls) =>
        match ParseLine(lines[|lines| - 1])
        case Err(e) => Err(e)
        case Ok(l) => Ok(ls + [l])
  }

  /** `GetAll`: reads the lines one after the other and appends each parsed
      record; a line that cannot be indexed throws out of the loop. */
  method GetAll(lines: seq<string>) returns (r: Result<seq<Language>>)
    ensures r == ParseLines(lines)
  {
    var languages: seq<Language> := [];
    var i := 0;
    while i < |lines|
      invariant 0 <= i <= |lines|
      invariant ParseLines(lines[..i]) == Ok(languages)
    {
      var line := lines[i];
      assert lines[..i + 1][..i] == lines[..i];
      var parts := Split(line, SPLIT_CHAR);
      if |parts| < 6 {
        AbortsLater(lines, i + 1);
        return Err(IndexOutOfRange);
      }
      var language := Language(Some(parts[0]), Some(parts[1]), Some(parts[2]), UIntOrZero(parts[3]),
                               Some(parts[4]), UIntOrZero(parts[5]));
      languages := languages + [language];
      i := i + 1;
    }
    assert lines[..i] == lines;
    return Ok(languages);
  }

  /** Once a prefix of the lines fails, the whole read fails the same way. */
  lemma {:induction false} AbortsLater(lines: seq<string>, i: nat)
    requires i <= |lines| && ParseLines(lines[..i]).Err?
    ensures ParseLines(lines) == ParseLines(lines[..i])
    decreases |lines| - i
  {
    if i < |lines| {
      assert lines[..i + 1][..i] == lines[..i];
      AbortsLater(lines, i + 1);
    } else {
      assert lines[..i] == lines;
    }
  }

  // ---------------------------------------------------------------------
  // What the reader promises

  /** A line parses exactly when it holds at least five separators; the
      parsed record copies the text parts and reads the numbers, falling
      back to 0. */
  lemma ParseLineSpec(line: string)
    ensures ParseLine(line).Ok? <==> Count(line, SPLIT_CHAR) >= 5
    ensures ParseLine(line).Err? ==> ParseLine(line).error == IndexOutOfRange
    ensures ParseLine(line).Ok? ==>
      var parts := Split(line, SPLIT_CHAR);
      var l := ParseLine(line).value;
      l.name == Some(parts[0]) && l.code == Some(parts[1]) && l.lcidCode == Some(parts[2])
      && l.windowsCodeHex == Some(parts[4])
      && (TryParseUInt32(parts[3]).Some? ==> l.windowsCodeDecimal == TryParseUInt32(parts[3]).value)
      && (TryParseUInt32(parts[3]).None? ==> l.windowsCodeDecimal == 0)
      && (TryParseUInt32(parts[5]).Some? ==> l.codePage == TryParseUInt32(parts[5]).value)
      && (TryParseUInt32(parts[5]).None? ==> l.codePage == 0)
  {
    SplitCount(line, SPLIT_CHAR);
  }

  /** Parts after the sixth are ignored. */
  lemma ParseLineIgnoresExtraParts(line: string, extra: string)
    requires Count(line, SPLIT_CHAR) >= 5
    ensures ParseLine(line + [SPLIT_CHAR] + extra) == ParseLine(line)
  {
    SplitConcat(line, SPLIT_CHAR, extra);
    SplitCount(line, SPLIT_CHAR);
    var parts := Split(line, SPLIT_CHAR);
    var all := Split(line + [SPLIT_CHAR] + extra, SPLIT_CHAR);
    assert forall k :: 0 <= k < 6 ==> all[k] == parts[k];
  }

  /** A read succeeds exactly when every line parses. */
  lemma ParseLinesOk(lines: seq<string>)
    ensures ParseLines(lines).Ok? <==> forall i :: 0 <= i < |lines| ==> ParseLine(lines[i]).Ok?
  {
    if ParseLines(lines).Ok? {
      ParseLinesValues(lines);
    } else {
      ParseLinesFails(lines);
    }
  }

  /** A failed read has a line that does not parse. */
  lemma {:induction false} ParseLinesFails(lines: seq<string>)
    requires ParseLines(lines).Err?
    ensures exists i :: 0 <= i < |lines| && ParseLine(lines[i]).Err?
  {
    var init := lines[..|lines| - 1];
    if ParseLines(init).Err? {
      ParseLinesFails(init);
      var i :| 0 <= i < |init| && ParseLine(init[i]).Err?;
      assert init[i] == lines[i];
    } else {
      assert ParseLine(lines[|lines| - 1]).Err?;
    }
  }

  /** A successful read ends with the record of its last line. */
  lemma ParseLinesLast(lines: seq<string>)
    requires lines != [] && ParseLines(lines).Ok?
    ensures ParseLines(lines[..|lines| - 1]).Ok? && ParseLine(lines[|lines| - 1]).Ok?
    ensures ParseLines(lines).value == ParseLines(lines[..|lines| - 1]).value + [ParseLine(lines[|lines| - 1]).value]
  {
  }

  /** A successful read holds one record per line, in line order. */
  lemma {:induction false} ParseLinesValues(lines: seq<string>)
    requires ParseLines(lines).Ok?
    ensures |ParseLines(lines).value| == |lines|
    ensures forall i :: 0 <= i < |lines| ==>
              ParseLine(lines[i]).Ok? && ParseLines(lines).value[i] == ParseLine(lines[i]).value
  {
    if lines != [] {
      var init := lines[..|lines| - 1];
      var last := lines[|lines| - 1];
      ParseLinesValues(init);
      ParseLinesLast(lines);
      var ls := ParseLines(init).value;
      var l := ParseLine(last).value;
      forall i | 0 <= i < |lines|
        ensures ParseLine(lines[i]).Ok? && ParseLines(lines).value[i] == ParseLine(lines[i]).value
      {
        if i < |init| {
          assert lines[i] == init[i];
          assert (ls + [l])[i] == ls[i];
        } else {
          assert (ls + [l])[i] == l;
        }
      }
    }
  }

  /** A line written by `ToCsv` reads back as the record it was written
      from, null text fields read as empty, provided no text field holds a `;`. */
  lemma ParseToCsv(l: Language)
    requires l.SeparatorFree()
    ensures ParseLine(l.ToCsv()) == Ok(l.Normalized())
  {
    ToCsvSplits(l);
    TryParseUInt32OfNatToString(l.windowsCodeDecimal);
    TryParseUInt32OfNatToString(l.codePage);
  }

  /** The lines `ToCsv` writes for a table of records read back as that
      table, null text fields read as empty. */
  lemma ParseLinesOfCsv(table: seq<Language>)
    requires forall i :: 0 <= i < |table| ==> table[i].SeparatorFree()
    ensures ParseLines(seq(|table|, i requires 0 <= i < |table| => table[i].ToCsv()))
            == Ok(seq(|table|, i requires 0 <= i < |table| => table[i].Normalized()))
  {
    var lines := seq(|table|, i requires 0 <= i < |table| => table[i].ToCsv());
    var expected := seq(|table|, i requires 0 <= i < |table| => table[i].Normalized());
    forall i | 0 <= i < |table| ensures ParseLine(lines[i]) == Ok(expected[i]) {
      ParseToCsv(table[i]);
    }
    ParseLinesOk(lines);
    ParseLinesValues(lines);
    assert ParseLines(lines).value == expected;
  }
}
