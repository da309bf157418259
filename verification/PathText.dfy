/** The text of pagination paths: `_path` reads back every printed path. */
module PathText {
  import opened Wrappers
  import opened InputErrors
  import opened TypeStrings
  import Paths

  predicate IsDigit(c: char) {
    '0' <= c <= '9'
  }

  predicate StartsWord(c: char) {
    'a' <= c <= 'z' || 'A' <= c <= 'Z' || c == '_'
  }

  predicate InWord(c: char) {
    StartsWord(c) || IsDigit(c)
  }

  // The characters of identifiers by their ASCII codes.
  lemma WordCharacters(c: char)
    ensures StartsWord(c) <==> 65 <= c as int <= 90 || 97 <= c as int <= 122 || c as int == 95
    ensures InWord(c) <==> StartsWord(c) || 48 <= c as int <= 57
  {}

  // `split(separator)`
  function Split(s: string, separator: char): (parts: seq<string>)
    ensures parts != []
  {
    if s == "" then [""]
    else
      var rest := Split(s[1..], separator);
      if s[0] == separator then [""] + rest else [[s[0]] + rest[0]] + rest[1..]
  }

  // The characters a word starts with.
  function Word(s: string): (word: string)
    ensures word <= s
  {
    if s != "" && InWord(s[0]) then [s[0]] + Word(s[1..]) else ""
  }

  predicate AllDigits(s: string) {
    s != "" && forall c | c in s :: IsDigit(c)
  }

  predicate IsInteger(s: string) {
    AllDigits(s) || (s != "" && s[0] == '-' && AllDigits(s[1..]))
  }

  function Value(digits: string): int {
    if digits == "" then 0 else Value(digits[..|digits| - 1]) * 10 + (digits[|digits| - 1] as int - '0' as int)
  }

  // `int(text)`
  function IntegerOf(s: string): int
    requires IsInteger(s)
  {
    if s[0] == '-' then -Value(s[1..]) else Value(s)
  }

  // A dotted part: a name, and an index or none.
  datatype Part = Part(name: string, index: Option<int>)

  // `([A-Za-z_]\w*)(?:\[(-?\d+)\])?`, matched in full.
  function ParsePart(text: string): Option<Part> {
    var name := Word(text);
    var rest := text[|name|..];
    if name == "" || !StartsWord(name[0]) then None
    else if rest == "" then Some(Part(name, None))
    else if |rest| > 2 && rest[0] == '[' && rest[|rest| - 1] == ']' && IsInteger(rest[1..|rest| - 1]) then
      Some(Part(name, Some(IntegerOf(rest[1..|rest| - 1]))))
    else None
  }

  function StepsOf(part: Part): seq<Paths.Step> {
    [Paths.Name(part.name)] + if part.index.Some? then [Paths.At(part.index.value)] else []
  }

  function Steps(parts: seq<Part>): seq<Paths.Step> {
    if parts == [] then [] else StepsOf(parts[0]) + Steps(parts[1..])
  }

  function ParseParts(texts: seq<string>): Option<seq<Part>> {
    if texts == [] then Some([])
    else
      match (ParsePart(texts[0]), ParseParts(texts[1..]))
      case (Some(first), Some(rest)) => Some([first] + rest)
      case _ => None
  }

  // The steps a dotted text is read as.
  function StepsIn(expression: string): Option<seq<Paths.Step>> {
    var parts := ParseParts(Split(Strip(expression), '.'));
    if parts.Some? then Some(Steps(parts.value)) else None
  }

  /** `_path`; None where the source raises. */
  method ParsePath(expression: string) returns (path: Option<seq<Paths.Step>>)
    ensures path == StepsIn(expression)
    ensures forall steps, before, after |
              && IsPadding(before) && IsPadding(after) && Printable(steps)
              && expression == before + PrintSteps(steps) + after ::
              path == Some(steps)
  {
    hide ParsePart, Split, Strip, StepsOf, PrintSteps, Printable;
    forall steps, before, after |
      && IsPadding(before) && IsPadding(after) && Printable(steps)
      && expression == before + PrintSteps(steps) + after
      ensures StepsIn(expression) == Some(steps)
    {
      StepsReadBack(steps, before, after);
    }
    var texts := Split(Strip(expression), '.');
    var result: seq<Paths.Step> := [];
    ghost var all := ParseParts(texts);
    for i := 0 to |texts|
      invariant all.None? <==> ParseParts(texts[i..]).None?
      invariant all.Some? ==> Steps(all.value) == result + Steps(ParseParts(texts[i..]).value)
    {
      assert texts[i..][0] == texts[i] && texts[i..][1..] == texts[i + 1..];
      var part := ParsePart(texts[i]);
      if part.None? {
        return None;
      }
      result := result + StepsOf(part.value);
    }
    assert texts[|texts|..] == [];
    assert ParseParts([]) == Some([]) && Steps([]) == [];
    assert result + [] == result;
    path := Some(result);
  }

  // ---------- Printed paths ----------

  function PrintInteger(n: int): string {
    if n < 0 then "-" + Digits(-n) else Digits(n)
  }

  function PrintPart(part: Part): string {
    part.name + if part.index.Some? then "[" + PrintInteger(part.index.value) + "]" else ""
  }

  function PrintPath(parts: seq<Part>): string
    requires parts != []
  {
    if |parts| == 1 then PrintPart(parts[0]) else PrintPart(parts[0]) + "." + PrintPath(parts[1..])
  }

  predicate IsIdentifier(name: string) {
    name != "" && StartsWord(name[0]) && forall c | c in name :: InWord(c)
  }

  lemma DigitIsItself(n: nat)
    requires n < 10
    ensures IsDigit(("0123456789")[n]) && ("0123456789")[n] as int - '0' as int == n
  {
    assert n == 0 || n == 1 || n == 2 || n == 3 || n == 4 || n == 5 || n == 6 || n == 7 || n == 8 || n == 9;
  }

  lemma {:induction false} DigitsReadBack(n: nat)
    ensures AllDigits(Digits(n)) && Value(Digits(n)) == n
  {
    if n < 10 {
      DigitIsItself(n);
      assert Digits(n)[..0] == "";
    } else {
      DigitsReadBack(n / 10);
      DigitIsItself(n % 10);
      var text := Digits(n);
      assert text[..|text| - 1] == Digits(n / 10);
    }
  }

  lemma IntegerReadsBack(n: int)
    ensures IsInteger(PrintInteger(n)) && IntegerOf(PrintInteger(n)) == n
    ensures forall c | c in PrintInteger(n) :: IsDigit(c) || c == '-'
  {
    DigitsReadBack(if n < 0 then -n else n);
    if n < 0 {
      assert PrintInteger(n)[1..] == Digits(-n);
    } else {
      assert PrintInteger(n)[0] in PrintInteger(n);
    }
  }

  lemma {:induction false} WordOfName(name: string, rest: string)
    requires (forall c | c in name :: InWord(c)) && (rest == "" || !InWord(rest[0]))
    ensures Word(name + rest) == name
  {
    if name == "" {
      assert name + rest == rest;
    } else {
      assert name[0] in name;
      assert (name + rest)[1..] == name[1..] + rest;
      WordOfName(name[1..], rest);
    }
  }

  lemma PartReadsBack(part: Part)
    requires IsIdentifier(part.name)
    ensures ParsePart(PrintPart(part)) == Some(part)
  {
    hide Word, Digits, IsInteger, IntegerOf;
    if part.index.None? {
      WordOfName(part.name, "");
      assert part.name + "" == part.name;
      assert PrintPart(part)[|part.name|..] == "";
    } else {
      var number := PrintInteger(part.index.value);
      var rest := "[" + number + "]";
      IntegerReadsBack(part.index.value);
      assert number != "" by {
        NotEmpty(number);
      }
      WordOfName(part.name, rest);
      assert PrintPart(part)[|part.name|..] == rest;
      assert rest[1..|rest| - 1] == number;
    }
  }

  lemma NotEmpty(number: string)
    requires IsInteger(number)
    ensures number != ""
  {
  }

  lemma {:induction false} SplitWithout(s: string, separator: char)
    requires separator !in s
    ensures Split(s, separator) == [s]
  {
    if s != "" {
      assert s[0] in s;
      SplitWithout(s[1..], separator);
      assert [s[0]] + s[1..] == s;
    }
  }

  lemma {:induction false} SplitAtFirst(s: string, separator: char, rest: string)
    requires separator !in s
    ensures Split(s + [separator] + rest, separator) == [s] + Split(rest, separator)
  {
    if s == "" {
      assert s + [separator] + rest == [separator] + rest;
      assert ([separator] + rest)[1..] == rest;
    } else {
      assert s[0] in s;
      var all := s + [separator] + rest;
      assert all[1..] == s[1..] + [separator] + rest;
      SplitAtFirst(s[1..], separator, rest);
      assert [s[0]] + s[1..] == s;
    }
  }

  lemma PartHasNoDot(part: Part)
    requires IsIdentifier(part.name)
    ensures '.' !in PrintPart(part)
  {
    if part.index.Some? {
      IntegerReadsBack(part.index.value);
    }
  }

  lemma {:induction false} PartsReadBack(parts: seq<Part>)
    requires parts != [] && forall part | part in parts :: IsIdentifier(part.name)
    ensures ParseParts(Split(PrintPath(parts), '.')) == Some(parts)
  {
    hide ParsePart, PrintPart, Split, IsIdentifier;
    assert parts[0] in parts;
    PartHasNoDot(parts[0]);
    PartReadsBack(parts[0]);
    var first := PrintPart(parts[0]);
    if |parts| == 1 {
      SplitWithout(first, '.');
      assert parts == [parts[0]];
      assert [first][1..] == [] && ParseParts([]) == Some([]);
      assert [parts[0]] + [] == parts;
    } else {
      PartsReadBack(parts[1..]);
      SplitAtFirst(first, '.', PrintPath(parts[1..]));
      var texts := [first] + Split(PrintPath(parts[1..]), '.');
      assert texts[1..] == Split(PrintPath(parts[1..]), '.');
      assert parts == [parts[0]] + parts[1..];
    }
  }

  lemma TightStrips(before: string, text: string, after: string)
    requires IsPadding(before) && IsPadding(after) && text != "" && !IsSpace(text[0]) && !IsSpace(text[|text| - 1])
    ensures Strip(before + text + after) == text
  {
    assert before + text + after == before + (text + after);
    StripLeftPads(before, text + after);
    assert StripLeft(text + after) == text + after;
    StripRightPads(text, after);
    assert StripRight(text) == text;
  }

  lemma {:induction false} PrintedIsTight(parts: seq<Part>)
    requires parts != [] && forall part | part in parts :: IsIdentifier(part.name)
    ensures var text := PrintPath(parts); text != "" && !IsSpace(text[0]) && !IsSpace(text[|text| - 1])
  {
    assert parts[0] in parts;
    var first := PrintPart(parts[0]);
    assert first[0] == parts[0].name[0] && parts[0].name[0] in parts[0].name;
    assert parts[0].index.None? ==> first == parts[0].name && first[|first| - 1] in parts[0].name;
    if |parts| > 1 {
      PrintedIsTight(parts[1..]);
      var rest := PrintPath(parts[1..]);
      assert PrintPath(parts) == first + "." + rest;
    }
  }

  /** A printed path, padded anyhow, reads back as its steps. */
  lemma PathReadsBack(parts: seq<Part>, before: string, after: string)
    requires parts != [] && IsPadding(before) && IsPadding(after)
    requires forall part | part in parts :: IsIdentifier(part.name)
    ensures ParseParts(Split(Strip(before + PrintPath(parts) + after), '.')) == Some(parts)
  {
    hide PrintPath, Split, ParseParts, Strip;
    PrintedIsTight(parts);
    TightStrips(before, PrintPath(parts), after);
    PartsReadBack(parts);
  }

  lemma WordIsWord(s: string)
    ensures forall c | c in Word(s) :: InWord(c)
  {
  }

  /** Only such paths are read: names are identifiers, so reading what was read is stable. */
  lemma {:induction false} ReadPathsPrint(texts: seq<string>)
    requires ParseParts(texts).Some?
    ensures var parts := ParseParts(texts).value;
            |parts| == |texts| && forall part | part in parts :: IsIdentifier(part.name)
  {
    if texts != [] {
      ReadPathsPrint(texts[1..]);
      WordIsWord(texts[0]);
    }
  }

  // ---------- Printed steps ----------

  function Shown(step: Paths.Step): string {
    match step
    case Name(name) => name
    case At(index) => "[" + PrintInteger(index) + "]"
  }

  // Names with dots between them, each index in brackets after its name.
  function PrintSteps(steps: seq<Paths.Step>): string
    decreases |steps|, 0
  {
    if steps == [] then "" else Shown(steps[0]) + PrintRest(steps[1..])
  }

  function PrintRest(rest: seq<Paths.Step>): string
    decreases |rest|, 1
  {
    if rest != [] && rest[0].Name? then "." + PrintSteps(rest) else PrintSteps(rest)
  }

  // A path starts with a name, and an index follows its own name.
  ghost predicate Printable(steps: seq<Paths.Step>) {
    && steps != [] && steps[0].Name?
    && (forall i | 0 <= i < |steps| && steps[i].At? :: i > 0 && steps[i - 1].Name?)
    && (forall i | 0 <= i < |steps| && steps[i].Name? :: IsIdentifier(steps[i].name))
  }

  // The steps, a name and its index at a time.
  function PartsIn(steps: seq<Paths.Step>): seq<Part> {
    if steps == [] || steps[0].At? then []
    else if |steps| > 1 && steps[1].At? then [Part(steps[0].name, Some(steps[1].index))] + PartsIn(steps[2..])
    else [Part(steps[0].name, None)] + PartsIn(steps[1..])
  }

  lemma {:induction false} PartsPrint(steps: seq<Paths.Step>)
    requires Printable(steps)
    ensures var parts := PartsIn(steps);
            && parts != [] && (forall part | part in parts :: IsIdentifier(part.name))
            && PrintPath(parts) == PrintSteps(steps) && Steps(parts) == steps
    decreases |steps|
  {
    hide IsIdentifier, PrintSteps, PrintPart;
    var part, rest := FirstPart(steps);
    FirstOfPath(part, rest);
    if rest == [] {
      assert StepsOf(part) + Steps([]) == steps;
      assert Steps([part]) == StepsOf(part) + Steps([]);
    } else {
      RestIsPrintable(steps, rest);
      PartsPrint(rest);
      assert PartsIn(steps)[1..] == PartsIn(rest);
    }
  }

  lemma NothingPrints()
    ensures PrintRest([]) == ""
  {}

  // The first name of a path with its index, and the path after it.
  lemma FirstPart(steps: seq<Paths.Step>) returns (part: Part, rest: seq<Paths.Step>)
    requires Printable(steps)
    ensures StepsOf(part) + rest == steps && PartsIn(steps) == [part] + PartsIn(rest)
    ensures IsIdentifier(part.name) && |rest| < |steps| && rest == steps[|steps| - |rest|..]
    ensures rest == [] || rest[0].Name?
  {
    hide IsIdentifier;
    if |steps| > 1 && steps[1].At? {
      part, rest := Part(steps[0].name, Some(steps[1].index)), steps[2..];
      assert rest != [] ==> rest[0] == steps[2];
    } else {
      part, rest := Part(steps[0].name, None), steps[1..];
    }
  }

  lemma RestIsPrintable(steps: seq<Paths.Step>, rest: seq<Paths.Step>)
    requires Printable(steps) && rest != [] && rest[0].Name? && |rest| < |steps| && rest == steps[|steps| - |rest|..]
    ensures Printable(rest)
  {
    hide IsIdentifier;
    var skipped := |steps| - |rest|;
    forall i | 0 <= i < |rest|
      ensures rest[i] == steps[skipped + i]
      ensures rest[i].At? ==> i > 0 && rest[i - 1].Name?
    {
      assert i > 0 ==> rest[i - 1] == steps[skipped + i - 1];
    }
  }

  lemma OnePrints(step: Paths.Step, rest: seq<Paths.Step>)
    ensures PrintSteps([step] + rest) == Shown(step) + PrintRest(rest)
  {
    hide Shown, PrintRest;
    assert ([step] + rest)[1..] == rest;
  }

  lemma Regrouped(a: string, b: string, c: string)
    ensures a + (b + c) == (a + b) + c
  {}

  lemma FirstOfPath(part: Part, rest: seq<Paths.Step>)
    requires rest == [] || rest[0].Name?
    ensures rest == [] ==> PrintSteps(StepsOf(part) + rest) == PrintPart(part)
    ensures rest != [] ==> PrintSteps(StepsOf(part) + rest) == PrintPart(part) + "." + PrintSteps(rest)
  {
    hide StepsOf, PrintPart;
    FirstPrints(part, rest);
    hide PrintSteps;
    if rest == [] {
      NothingPrints();
      assert PrintPart(part) + "" == PrintPart(part);
    } else {
      Regrouped(PrintPart(part), ".", PrintSteps(rest));
    }
  }

  lemma FirstPrints(part: Part, rest: seq<Paths.Step>)
    requires rest == [] || rest[0].Name?
    ensures PrintSteps(StepsOf(part) + rest) == PrintPart(part) + PrintRest(rest)
  {
    hide PrintSteps, PrintInteger;
    var name := Paths.Name(part.name);
    if part.index.Some? {
      var index := Paths.At(part.index.value);
      assert StepsOf(part) + rest == [name] + ([index] + rest);
      OnePrints(name, [index] + rest);
      OnePrints(index, rest);
      Regrouped(part.name, Shown(index), PrintRest(rest));
    } else {
      assert StepsOf(part) + rest == [name] + rest;
      OnePrints(name, rest);
      assert PrintPart(part) == part.name;
    }
  }

  /** Steps printed as a dotted text, padded anyhow, are read back as exactly these steps. */
  lemma StepsReadBack(steps: seq<Paths.Step>, before: string, after: string)
    requires Printable(steps) && IsPadding(before) && IsPadding(after)
    ensures StepsIn(before + PrintSteps(steps) + after) == Some(steps)
  {
    hide PrintSteps, PrintPath, Split, ParseParts, Strip, Steps, PartsIn;
    PartsPrint(steps);
    PathReadsBack(PartsIn(steps), before, after);
  }

  /** Whatever is read is such a path: it starts with a name, and each index follows a name. */
  lemma OnlyPrintableSteps(expression: string)
    requires StepsIn(expression).Some?
    ensures Printable(StepsIn(expression).value)
  {
    hide Split, Strip, ParseParts, IsIdentifier, Printable;
    var texts := Split(Strip(expression), '.');
    ReadPathsPrint(texts);
    PartsArePrintable(ParseParts(texts).value);
  }

  lemma {:induction false} PartsArePrintable(parts: seq<Part>)
    requires parts != [] && forall part | part in parts :: IsIdentifier(part.name)
    ensures Printable(Steps(parts))
  {
    hide IsIdentifier;
    var first, rest := StepsOf(parts[0]), Steps(parts[1..]);
    assert parts[0] in parts;
    if |parts| > 1 {
      PartsArePrintable(parts[1..]);
    }
    var steps := first + rest;
    forall i | 0 <= i < |steps|
      ensures steps[i].At? ==> i > 0 && steps[i - 1].Name?
      ensures steps[i].Name? ==> IsIdentifier(steps[i].name)
    {
      if i >= |first| {
        assert steps[i] == rest[i - |first|];
        assert i > |first| ==> steps[i - 1] == rest[i - 1 - |first|];
      }
    }
  }
}
