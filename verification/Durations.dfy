/**
  time_str(): a number of seconds in hours, minutes and seconds, and how to read it back.
  */
module Durations {
  import opened CStrings
  import opened Numerals

  /** %i applied to a uint32_t: from 2^31 on it would print a negative number. */
  function SignedText(n: U32): string {
    if n < 0x8000_0000 then Print(n, 10) else "-" + Print(TWO_32 - n, 10)
  }

  /** The text denotes the 32 bits of n as a signed number. */
  lemma SignedValue(n: U32)
    ensures var text := SignedText(n);
            if n < 0x8000_0000 then IsNumeral(text, 10) && Value(text, 10) == n
            else text[0] == '-' && IsNumeral(text[1..], 10) && Value(text[1..], 10) == 0x1_0000_0000 - n
  {
    if n < 0x8000_0000 {
      PrintRoundTrip(n, 10);
    } else {
      PrintRoundTrip(TWO_32 - n, 10);
      assert SignedText(n)[1..] == Print(TWO_32 - n, 10);
    }
  }

  /** A number and its unit word. */
  datatype Field = Field(number: U32, unit: string)

  /** The three formats of time_str(). */
  function Fields(nseconds: U32): seq<Field> {
    if nseconds / 3600 > 0 then
      [Field(nseconds / 3600, "hours"), Field((nseconds % 3600) / 60, "minutes"), Field((nseconds % 3600) % 60, "seconds")]
    else if nseconds / 60 > 0 then
      [Field(nseconds / 60, "minutes"), Field(nseconds % 60, "seconds")]
    else
      [Field(nseconds, "seconds")]
  }

  function Text(fields: seq<Field>): string {
    if fields == [] then ""
    else if |fields| == 1 then SignedText(fields[0].number) + " " + fields[0].unit
    else SignedText(fields[0].number) + " " + fields[0].unit + " " + Text(fields[1..])
  }

  function TimeText(nseconds: U32): string {
    Text(Fields(nseconds))
  }

  /* Reading */

  function UnitSeconds(unit: string): int {
    if unit == "hours" then 3600 else if unit == "minutes" then 60 else if unit == "seconds" then 1 else -1
  }

  /** The sum of number times unit over pairs of words; -1 if there is anything else. */
  function Total(words: seq<string>): int
    decreases |words|
  {
    if words == [] then 0
    else if |words| == 1 || !IsNumeral(words[0], 10) || UnitSeconds(words[1]) < 0 || Total(words[2..]) < 0 then -1
    else Value(words[0], 10) * UnitSeconds(words[1]) + Total(words[2..])
  }

  /** Reads a text without knowing how it was printed. */
  function Read(text: string): int {
    Total(Words(text, IsSpace))
  }

  predicate Plain(field: Field) {
    field.number < 0x8000_0000 && UnitSeconds(field.unit) > 0
  }

  function Sum(fields: seq<Field>): int {
    if fields == [] then 0 else fields[0].number * UnitSeconds(fields[0].unit) + Sum(fields[1..])
  }

  lemma UnitsAreWords(unit: string)
    requires UnitSeconds(unit) > 0
    ensures unit != "" && forall i | 0 <= i < |unit| :: !IsSpace(unit[i])
    ensures |unit| <= 7 && NUL !in unit
  {
  }

  lemma NumeralsAreWords(n: nat)
    ensures Print(n, 10) != "" && forall i | 0 <= i < |Print(n, 10)| :: !IsSpace(Print(n, 10)[i])
  {
    PrintRoundTrip(n, 10);
    forall i | 0 <= i < |Print(n, 10)| ensures !IsSpace(Print(n, 10)[i]) {
      NumeralChars(Print(n, 10), 10, Print(n, 10)[i]);
    }
  }

  lemma Regroup(a: string, b: string, c: string, d: string, e: string)
    ensures a + b + c + d + e == a + b + (c + d + e)
    ensures a + b + c + d + e == a + (b + c + d) + e
  {
  }

  lemma FirstPair(number: string, unit: string, rest: string)
    requires number != "" && unit != ""
    requires forall i | 0 <= i < |number| :: !IsSpace(number[i])
    requires forall i | 0 <= i < |unit| :: !IsSpace(unit[i])
    ensures Words(number + " " + unit + " " + rest, IsSpace) == [number, unit] + Words(rest, IsSpace)
  {
    var tail := unit + " " + rest;
    var words := Words(rest, IsSpace);
    assert Words(tail, IsSpace) == [unit] + words by {
      FirstWord(unit, IsSpace, ' ', rest);
    }
    assert Words(number + " " + tail, IsSpace) == [number] + ([unit] + words) by {
      FirstWord(number, IsSpace, ' ', tail);
    }
    assert number + " " + unit + " " + rest == number + " " + tail by {
      Regroup(number, " ", unit, " ", rest);
    }
  }

  lemma OnlyPair(number: string, unit: string)
    requires number != "" && unit != ""
    requires forall i | 0 <= i < |number| :: !IsSpace(number[i])
    requires forall i | 0 <= i < |unit| :: !IsSpace(unit[i])
    ensures Words(number + " " + unit, IsSpace) == [number, unit]
  {
    FirstWord(number, IsSpace, ' ', unit);
    OnlyWord(unit, IsSpace);
  }

  lemma TotalStep(number: string, unit: string, rest: seq<string>)
    requires IsNumeral(number, 10) && UnitSeconds(unit) > 0 && Total(rest) >= 0
    ensures Total([number, unit] + rest) == Value(number, 10) * UnitSeconds(unit) + Total(rest)
  {
    assert ([number, unit] + rest)[2..] == rest;
  }

  lemma PlainNumber(field: Field)
    requires Plain(field)
    ensures var number := SignedText(field.number);
            && IsNumeral(number, 10) && Value(number, 10) == field.number
            && forall i | 0 <= i < |number| :: !IsSpace(number[i])
    ensures field.number * UnitSeconds(field.unit) >= 0
  {
    NumeralsAreWords(field.number);
    PrintRoundTrip(field.number, 10);
  }

  lemma ReadPair(field: Field, rest: string)
    requires Plain(field) && Read(rest) >= 0
    ensures Read(SignedText(field.number) + " " + field.unit + " " + rest) ==
              field.number * UnitSeconds(field.unit) + Read(rest)
  {
    var number := SignedText(field.number);
    PlainNumber(field);
    UnitsAreWords(field.unit);
    FirstPair(number, field.unit, rest);
    TotalStep(number, field.unit, Words(rest, IsSpace));
  }

  lemma ReadLast(field: Field)
    requires Plain(field)
    ensures Read(SignedText(field.number) + " " + field.unit) == field.number * UnitSeconds(field.unit)
  {
    var number := SignedText(field.number);
    PlainNumber(field);
    UnitsAreWords(field.unit);
    OnlyPair(number, field.unit);
    TotalStep(number, field.unit, []);
    assert [number, field.unit] + [] == [number, field.unit];
  }

  lemma {:induction false} ReadText(fields: seq<Field>)
    requires forall f <- fields :: Plain(f)
    ensures Read(Text(fields)) == Sum(fields) && Sum(fields) >= 0
  {
    if fields != [] {
      assert Plain(fields[0]);
      PlainNumber(fields[0]);
      ReadText(fields[1..]);
      if |fields| == 1 {
        ReadLast(fields[0]);
      } else {
        ReadPair(fields[0], Text(fields[1..]));
      }
    }
  }

  lemma FieldsAreRight(nseconds: U32)
    ensures forall f <- Fields(nseconds) :: Plain(f)
    ensures Sum(Fields(nseconds)) == nseconds
  {
    var fields := Fields(nseconds);
    if |fields| == 3 {
      assert fields[1..][1..] == [fields[2]];
      assert Sum([fields[2]]) == fields[2].number;
      assert Sum(fields[1..]) == fields[1].number * 60 + fields[2].number;
    } else if |fields| == 2 {
      assert fields[1..] == [fields[1]];
      assert Sum([fields[1]]) == fields[1].number;
    }
  }

  /** Duration round trip: the text of every 32-bit duration reads back as that duration. */
  lemma DurationRoundTrip(nseconds: U32)
    ensures Read(TimeText(nseconds)) == nseconds
  {
    FieldsAreRight(nseconds);
    ReadText(Fields(nseconds));
  }

  /** Different durations print differently. */
  lemma DurationInjective(a: U32, b: U32)
    requires TimeText(a) == TimeText(b)
    ensures a == b
  {
    DurationRoundTrip(a);
    DurationRoundTrip(b);
  }

  /** The fields are the canonical ones: lower fields are below 60, and the leading field is zero
      only when the whole duration is. */
  lemma FieldsCanonical(nseconds: U32)
    ensures var fields := Fields(nseconds);
            && 1 <= |fields| <= 3
            && (forall i | 1 <= i < |fields| :: fields[i].number < 60)
            && (fields[0].number == 0 ==> nseconds == 0)
            && (|fields| < 3 ==> fields[0].number < 60)
            && fields[|fields| - 1].unit == "seconds"
  {
  }

  lemma NumberLength(n: U32)
    requires n < 0x8000_0000
    ensures |SignedText(n)| <= 10 && NUL !in SignedText(n)
  {
    assert TenTo(10) > n by {
      assert TenTo(5) == 100_000;
      assert TenTo(8) == 1000 * TenTo(5);
      assert TenTo(10) == 100 * TenTo(8);
    }
    DecimalLength(n, 10);
    PrintRoundTrip(n, 10);
    if NUL in SignedText(n) {
      NumeralChars(SignedText(n), 10, NUL);
    }
  }

  lemma {:induction false} TextLength(fields: seq<Field>)
    requires forall f <- fields :: Plain(f)
    ensures |Text(fields)| <= 20 * |fields| && NUL !in Text(fields)
  {
    if fields != [] {
      assert Plain(fields[0]);
      NumberLength(fields[0].number);
      UnitsAreWords(fields[0].unit);
      TextLength(fields[1..]);
      var head := SignedText(fields[0].number) + " " + fields[0].unit;
      assert |head| <= 18 && NUL !in head;
      assert Text(fields) == head || Text(fields) == head + " " + Text(fields[1..]);
    }
  }

  lemma TextStep(field: Field, fields: seq<Field>)
    requires fields != []
    ensures Text([field] + fields) == SignedText(field.number) + (" " + field.unit + " ") + Text(fields)
  {
    assert ([field] + fields)[1..] == fields;
    Regroup(SignedText(field.number), " ", field.unit, " ", Text(fields));
  }

  lemma FormatOfTwo(m: U32, s: U32)
    ensures Text([Field(m, "minutes"), Field(s, "seconds")]) == SignedText(m) + " minutes " + (SignedText(s) + " seconds")
  {
    TextStep(Field(m, "minutes"), [Field(s, "seconds")]);
    assert " " + "minutes" + " " == " minutes ";
    assert SignedText(s) + " " + "seconds" == SignedText(s) + " seconds";
  }

  lemma FormatOfThree(h: U32, m: U32, s: U32)
    ensures Text([Field(h, "hours"), Field(m, "minutes"), Field(s, "seconds")]) ==
              SignedText(h) + " hours " + (SignedText(m) + " minutes " + (SignedText(s) + " seconds"))
  {
    FormatOfTwo(m, s);
    TextStep(Field(h, "hours"), [Field(m, "minutes"), Field(s, "seconds")]);
    assert " " + "hours" + " " == " hours ";
    assert [Field(h, "hours")] + [Field(m, "minutes"), Field(s, "seconds")] == [Field(h, "hours"), Field(m, "minutes"), Field(s, "seconds")];
  }

  /** time_str(): the static buffer afterwards holds the text, whole. */
  method TimeStr(msg: array<char>, nseconds: U32)
    requires msg.Length == BUFFERLEN
    modifies msg
    ensures CString(msg[..]) == TimeText(nseconds)
  {
    FieldsAreRight(nseconds);
    TextLength(Fields(nseconds));
    var text: string;
    if nseconds / 3600 > 0 {
      var hours, minutes, seconds := nseconds / 3600, (nseconds % 3600) / 60, (nseconds % 3600) % 60;
      FormatOfThree(hours, minutes, seconds);
      text := SignedText(hours) + " hours " + (SignedText(minutes) + " minutes " + (SignedText(seconds) + " seconds"));
    } else if nseconds / 60 > 0 {
      FormatOfTwo(nseconds / 60, nseconds % 60);
      text := SignedText(nseconds / 60) + " minutes " + (SignedText(nseconds % 60) + " seconds");
    } else {
      text := SignedText(nseconds) + " seconds";
      assert " " + "seconds" == " seconds";
    }
    assert text == TimeText(nseconds);
    Snprintf(msg, BUFFERLEN - 1, text);
  }
}
