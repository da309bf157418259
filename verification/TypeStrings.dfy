/** Rust type strings: splitting generic arguments, and printing types that split back. */
module TypeStrings {
  import opened Wrappers

  predicate IsSpace(c: char) {
    c == ' ' || '\t' <= c <= '\r' || '\U{1c}' <= c <= '\U{1f}'
  }

  // The ASCII characters that Python strips.
  lemma Spaces(c: char)
    ensures IsSpace(c) <==> c as int in {9, 10, 11, 12, 13, 28, 29, 30, 31, 32}
  {}

  predicate IsPadding(s: string) {
    forall c | c in s :: IsSpace(c)
  }

  function StripLeft(s: string): string {
    if s != "" && IsSpace(s[0]) then StripLeft(s[1..]) else s
  }

  function StripRight(s: string): string {
    if s != "" && IsSpace(s[|s| - 1]) then StripRight(s[..|s| - 1]) else s
  }

  function Strip(s: string): string {
    StripRight(StripLeft(s))
  }

  function Depth(c: char): int {
    if c == '<' then 1 else if c == '>' then -1 else 0
  }

  // The parts of `value[start..]` cut at commas of depth zero; `index` characters are scanned.
  function SplitFrom(value: string, start: nat, index: nat, depth: int): seq<string>
    requires start <= index <= |value|
    decreases |value| - index
  {
    if index == |value| then Part(value[start..])
    else if value[index] == ',' && depth == 0 then
      Part(value[start..index]) + SplitFrom(value, index + 1, index + 1, depth)
    else SplitFrom(value, start, index + 1, depth + Depth(value[index]))
  }

  // Empty parts are dropped.
  function Part(text: string): seq<string> {
    if Strip(text) == "" then [] else [Strip(text)]
  }

  /** Splits generic arguments at the commas outside every bracket. */
  method SplitGeneric(value: string) returns (parts: seq<string>)
    ensures parts == SplitFrom(value, 0, 0, 0)
    ensures forall pieces | AreCuts(value, pieces) :: parts == Parts(pieces)
  {
    hide Strip, AreCuts, Parts;
    parts := [];
    var start, depth := 0, 0;
    for index := 0 to |value|
      invariant start <= index
      invariant SplitFrom(value, 0, 0, 0) == parts + SplitFrom(value, start, index, depth)
    {
      var character := value[index];
      if character == '<' {
        depth := depth + 1;
      } else if character == '>' {
        depth := depth - 1;
      } else if character == ',' && depth == 0 {
        var part := Strip(value[start..index]);
        if part != "" {
          parts := parts + [part];
        }
        start := index + 1;
      }
    }
    var final := Strip(value[start..]);
    if final != "" {
      parts := parts + [final];
    }
    SplitsAtTopCommas(value);
  }

  // The arguments of `head<..>`, when the type has that head.
  function Generic(rustType: string, head: string): Option<seq<string>> {
    var marker := head + "<";
    if marker <= rustType && rustType != "" && rustType[|rustType| - 1] == '>'
    then Some(SplitFrom(Inside(rustType, |marker|), 0, 0, 0))
    else None
  }

  // `rust_type[len(marker) : -1]`
  function Inside(text: string, from: nat): string
    requires text != ""
  {
    if from <= |text| - 1 then text[from..|text| - 1] else ""
  }

  // ---------- Printed types ----------

  // A type with the layout it is printed in: padding around each argument, and a trailing
  // comma or not.
  datatype Layout =
    | Plain(name: string)
    | Applied(head: string, args: seq<Argument>, trailing: Option<string>)

  datatype Argument = Argument(before: string, layout: Layout, after: string)

  predicate IsStructural(c: char) {
    c == '<' || c == '>' || c == ','
  }

  predicate IsFlat(s: string) {
    forall i | 0 <= i < |s| :: !IsStructural(s[i])
  }

  // A name: not empty, no brackets or commas, and no space at either end.
  predicate IsName(s: string) {
    && s != "" && IsFlat(s)
    && !IsSpace(s[0]) && !IsSpace(s[|s| - 1])
  }

  predicate IsLayout(l: Layout) {
    match l
    case Plain(name) => IsName(name)
    case Applied(head, args, trailing) =>
      && IsName(head) && args != []
      && (forall a | a in args :: IsPadding(a.before) && IsPadding(a.after) && IsLayout(a.layout))
      && (trailing.Some? ==> IsPadding(trailing.value))
  }

  function ArgumentText(a: Argument): string
    decreases a, 0
  {
    a.before + Text(a.layout) + a.after
  }

  function ArgumentsText(args: seq<Argument>, trailing: Option<string>): string
    decreases args, 1
  {
    if args == [] then "" else ArgumentText(args[0]) + Remainder(args[1..], trailing)
  }

  // What follows an argument: the comma and the others, or the trailing comma, or nothing.
  function Remainder(args: seq<Argument>, trailing: Option<string>): string
    decreases args, 2
  {
    if args != [] then "," + ArgumentsText(args, trailing)
    else if trailing.Some? then "," + trailing.value
    else ""
  }

  function Text(l: Layout): string
    decreases l, 2
  {
    match l
    case Plain(name) => name
    case Applied(head, args, trailing) => head + "<" + ArgumentsText(args, trailing) + ">"
  }

  function Texts(args: seq<Argument>): seq<string> {
    seq(|args|, i requires 0 <= i < |args| => Text(args[i].layout))
  }

  // ---------- Brackets ----------

  function DepthOf(s: string): int {
    if s == "" then 0 else Depth(s[0]) + DepthOf(s[1..])
  }

  // Scanned from depth `depth`, the text never has a comma at depth zero.
  predicate NoTopComma(s: string, depth: int) {
    s == "" || (!(s[0] == ',' && depth == 0) && NoTopComma(s[1..], depth + Depth(s[0])))
  }

  lemma {:induction false} DepthOfConcat(a: string, b: string)
    ensures DepthOf(a + b) == DepthOf(a) + DepthOf(b)
  {
    if a == "" {
      assert a + b == b;
    } else {
      assert (a + b)[1..] == a[1..] + b;
      DepthOfConcat(a[1..], b);
    }
  }

  lemma {:induction false} NoTopCommaOfConcat(a: string, b: string, depth: int)
    ensures NoTopComma(a + b, depth) <==> NoTopComma(a, depth) && NoTopComma(b, depth + DepthOf(a))
  {
    if a == "" {
      assert a + b == b;
    } else {
      assert (a + b)[1..] == a[1..] + b;
      NoTopCommaOfConcat(a[1..], b, depth + Depth(a[0]));
    }
  }

  lemma {:induction false} FlatText(s: string, depth: int)
    requires IsFlat(s)
    ensures DepthOf(s) == 0 && NoTopComma(s, depth)
  {
    if s != "" {
      assert !IsStructural(s[0]);
      FlatText(s[1..], depth);
    }
  }

  lemma Balanced3(a: string, b: string, c: string, depth: int)
    ensures DepthOf(a + b + c) == DepthOf(a) + DepthOf(b) + DepthOf(c)
    ensures NoTopComma(a + b + c, depth) <==>
            NoTopComma(a, depth) && NoTopComma(b, depth + DepthOf(a)) && NoTopComma(c, depth + DepthOf(a) + DepthOf(b))
  {
    DepthOfConcat(a, b);
    DepthOfConcat(a + b, c);
    NoTopCommaOfConcat(a, b, depth);
    NoTopCommaOfConcat(a + b, c, depth);
  }

  lemma PaddingIsFlat(s: string, depth: int)
    requires IsPadding(s)
    ensures DepthOf(s) == 0 && NoTopComma(s, depth)
  {
    forall i | 0 <= i < |s|
      ensures !IsStructural(s[i])
    {
      assert s[i] in s;
    }
    FlatText(s, depth);
  }

  lemma {:induction false} ArgumentIsBalanced(a: Argument, depth: nat)
    requires IsPadding(a.before) && IsPadding(a.after) && IsLayout(a.layout)
    ensures DepthOf(ArgumentText(a)) == 0 && NoTopComma(ArgumentText(a), depth)
    decreases a, 0
  {
    PaddingIsFlat(a.before, depth);
    PaddingIsFlat(a.after, depth);
    TextIsBalanced(a.layout, depth);
    Balanced3(a.before, Text(a.layout), a.after, depth);
  }

  ghost predicate GoodArguments(args: seq<Argument>, trailing: Option<string>) {
    && (forall a | a in args :: IsPadding(a.before) && IsPadding(a.after) && IsLayout(a.layout))
    && (trailing.Some? ==> IsPadding(trailing.value))
  }

  lemma NothingIsBalanced(trailing: Option<string>, depth: nat)
    ensures DepthOf(ArgumentsText([], trailing)) == 0 && NoTopComma(ArgumentsText([], trailing), depth)
  {}

  lemma ArgumentsInTurn(args: seq<Argument>, trailing: Option<string>)
    requires args != []
    ensures ArgumentsText(args, trailing) == ArgumentText(args[0]) + Remainder(args[1..], trailing)
  {}

  lemma GoodRest(args: seq<Argument>, trailing: Option<string>)
    requires args != [] && GoodArguments(args, trailing)
    ensures IsPadding(args[0].before) && IsPadding(args[0].after) && IsLayout(args[0].layout)
    ensures GoodArguments(args[1..], trailing)
  {
    hide IsPadding, IsLayout;
    assert args[0] in args;
  }

  lemma {:induction false} ArgumentsAreBalanced(args: seq<Argument>, trailing: Option<string>, depth: nat)
    requires depth >= 1 && GoodArguments(args, trailing)
    ensures DepthOf(ArgumentsText(args, trailing)) == 0 && NoTopComma(ArgumentsText(args, trailing), depth)
    decreases args, 1
  {
    if args == [] {
      NothingIsBalanced(trailing, depth);
    } else {
      GoodRest(args, trailing);
      ArgumentsInTurn(args, trailing);
      hide *;
      ArgumentIsBalanced(args[0], depth);
      RemainderIsBalanced(args[1..], trailing, depth);
      DepthOfConcat(ArgumentText(args[0]), Remainder(args[1..], trailing));
      NoTopCommaOfConcat(ArgumentText(args[0]), Remainder(args[1..], trailing), depth);
    }
  }

  lemma {:induction false} RemainderIsBalanced(args: seq<Argument>, trailing: Option<string>, depth: nat)
    requires depth >= 1 && GoodArguments(args, trailing)
    ensures DepthOf(Remainder(args, trailing)) == 0 && NoTopComma(Remainder(args, trailing), depth)
    decreases args, 2
  {
    hide ArgumentsText, IsPadding, IsLayout, DepthOf, NoTopComma;
    EmptyText(depth);
    if args != [] {
      ArgumentsAreBalanced(args, trailing, depth);
      CommaThen(ArgumentsText(args, trailing), depth);
    } else if trailing.Some? {
      PaddingIsFlat(trailing.value, depth);
      CommaThen(trailing.value, depth);
    }
  }

  lemma EmptyText(depth: int)
    ensures DepthOf("") == 0 && NoTopComma("", depth)
  {}

  lemma CommaThen(rest: string, depth: int)
    requires depth != 0
    ensures DepthOf("," + rest) == DepthOf(rest)
    ensures NoTopComma("," + rest, depth) <==> NoTopComma(rest, depth)
  {
    assert ("," + rest)[1..] == rest;
  }

  lemma Brackets(depth: int)
    ensures DepthOf("<") == 1 && DepthOf(">") == -1 && NoTopComma("<", depth) && NoTopComma(">", depth)
  {
    assert "<"[1..] == "" && ">"[1..] == "";
  }

  // A printed type closes what it opens, and hides its own commas.
  lemma {:induction false} TextIsBalanced(l: Layout, depth: nat)
    requires IsLayout(l)
    ensures DepthOf(Text(l)) == 0 && NoTopComma(Text(l), depth)
    decreases l, 2
  {
    match l
    case Plain(name) => FlatText(name, depth);
    case Applied(head, args, trailing) =>
      FlatText(head, depth);
      Brackets(depth);
      Brackets(depth + 1);
      ArgumentsAreBalanced(args, trailing, depth + 1);
      var body := ArgumentsText(args, trailing);
      Balanced3(head, "<", body, depth);
      Balanced3(head + "<" + body, ">", "", depth);
      assert head + "<" + body + ">" + "" == Text(l);
  }

  // ---------- Stripping ----------

  lemma {:induction false} StripLeftPads(pad: string, s: string)
    requires IsPadding(pad)
    ensures StripLeft(pad + s) == StripLeft(s)
  {
    if pad == "" {
      assert pad + s == s;
    } else {
      assert (pad + s)[1..] == pad[1..] + s;
      StripLeftPads(pad[1..], s);
    }
  }

  lemma {:induction false} StripRightPads(s: string, pad: string)
    requires IsPadding(pad)
    ensures StripRight(s + pad) == StripRight(s)
    decreases |pad|
  {
    if pad == "" {
      assert s + pad == s;
    } else {
      var shorter := pad[..|pad| - 1];
      assert (s + pad)[..|s + pad| - 1] == s + shorter;
      StripRightPads(s, shorter);
    }
  }

  lemma {:induction false} PaddingStripsAway(pad: string)
    requires IsPadding(pad)
    ensures Strip(pad) == ""
  {
    StripLeftPads(pad, "");
    assert pad + "" == pad;
  }

  // A printed type has no space at either end.
  lemma TextIsTight(l: Layout)
    requires IsLayout(l)
    ensures var t := Text(l); t != "" && !IsSpace(t[0]) && !IsSpace(t[|t| - 1])
  {}

  lemma StripArgument(a: Argument)
    requires IsPadding(a.before) && IsPadding(a.after) && IsLayout(a.layout)
    ensures Strip(ArgumentText(a)) == Text(a.layout)
  {
    var t := Text(a.layout);
    TextIsTight(a.layout);
    assert ArgumentText(a) == a.before + (t + a.after);
    StripLeftPads(a.before, t + a.after);
    assert StripLeft(t + a.after) == t + a.after;
    StripRightPads(t, a.after);
  }

  // ---------- Splitting what was printed ----------

  // Scanning text without top commas only moves the depth.
  lemma {:induction false} ScanText(before: string, text: string, after: string, start: nat, depth: int)
    requires start <= |before| && NoTopComma(text, depth)
    ensures SplitFrom(before + text + after, start, |before|, depth)
         == SplitFrom(before + text + after, start, |before| + |text|, depth + DepthOf(text))
    decreases |text|
  {
    if text != "" {
      var value := before + text + after;
      var shifted := before + [text[0]];
      assert shifted + text[1..] + after == value;
      assert value[|before|] == text[0];
      ScanText(shifted, text[1..], after, start, depth + Depth(text[0]));
    }
  }

  // ---------- Where the cuts are ----------

  function Joined(pieces: seq<string>): string {
    if pieces == [] then "" else if |pieces| == 1 then pieces[0] else pieces[0] + "," + Joined(pieces[1..])
  }

  // The text cut at its commas outside brackets: no piece has one, and each cut is at depth zero.
  ghost predicate AreCuts(value: string, pieces: seq<string>) {
    && pieces != [] && Joined(pieces) == value
    && (forall piece | piece in pieces :: NoTopComma(piece, 0))
    && (forall i | 0 <= i < |pieces| - 1 :: DepthOf(pieces[i]) == 0)
  }

  function Parts(pieces: seq<string>): seq<string> {
    if pieces == [] then [] else Part(pieces[0]) + Parts(pieces[1..])
  }

  // One piece, and the comma it is cut at.
  lemma CutsPiece(before: string, first: string, rest: string)
    requires NoTopComma(first, 0) && DepthOf(first) == 0
    ensures var value, start := before + first + "," + rest, |before| + |first| + 1;
            SplitFrom(value, |before|, |before|, 0) == Part(first) + SplitFrom(value, start, start, 0)
  {
    hide Part, NoTopComma, DepthOf;
    var value := before + first + "," + rest;
    assert value == before + first + ("," + rest);
    ScanText(before, first, "," + rest, |before|, 0);
    assert value[|before| + |first|] == ',' && value[|before|..|before| + |first|] == first;
  }

  lemma CutsLast(before: string, last: string)
    requires NoTopComma(last, 0)
    ensures SplitFrom(before + last, |before|, |before|, 0) == Part(last)
  {
    hide Part, NoTopComma, DepthOf;
    assert before + last == before + last + "";
    ScanText(before, last, "", |before|, 0);
    assert (before + last)[|before|..] == last;
  }

  lemma {:induction false} SplitsPieces(before: string, pieces: seq<string>)
    requires AreCuts(Joined(pieces), pieces)
    ensures SplitFrom(before + Joined(pieces), |before|, |before|, 0) == Parts(pieces)
    decreases |pieces|
  {
    hide Part, NoTopComma, DepthOf, SplitFrom;
    var first := pieces[0];
    assert first in pieces;
    if |pieces| == 1 {
      CutsLast(before, first);
      assert Parts(pieces) == Part(first) + Parts([]) && Parts([]) == [];
    } else {
      var rest := pieces[1..];
      assert forall i | 0 <= i < |rest| - 1 :: rest[i] == pieces[i + 1];
      CutsPiece(before, first, Joined(rest));
      Rejoined(before, first, Joined(rest));
      SplitsPieces(before + first + ",", rest);
    }
  }

  lemma Rejoined(before: string, first: string, rest: string)
    ensures before + (first + "," + rest) == before + first + "," + rest
  {}

  // The text before the first comma outside brackets.
  function Leading(value: string, depth: int): string {
    if value == "" || (value[0] == ',' && depth == 0) then ""
    else [value[0]] + Leading(value[1..], depth + Depth(value[0]))
  }

  lemma {:induction false} LeadingIsCut(value: string, depth: int)
    ensures var first := Leading(value, depth);
            && first <= value && NoTopComma(first, depth)
            && (first == value || (value[|first|] == ',' && depth + DepthOf(first) == 0))
  {
    if value != "" && !(value[0] == ',' && depth == 0) {
      LeadingIsCut(value[1..], depth + Depth(value[0]));
      var rest := Leading(value[1..], depth + Depth(value[0]));
      assert Leading(value, depth)[1..] == rest;
      assert value == [value[0]] + value[1..];
    }
  }

  lemma {:induction false} CutsExist(value: string) returns (pieces: seq<string>)
    ensures AreCuts(value, pieces)
    decreases |value|
  {
    var first := Leading(value, 0);
    LeadingIsCut(value, 0);
    if first == value {
      pieces := [value];
    } else {
      var rest := CutsExist(value[|first| + 1..]);
      pieces := [first] + rest;
      assert pieces[1..] == rest;
      assert value == first + "," + value[|first| + 1..];
      assert forall i | 0 < i < |pieces| :: pieces[i] == rest[i - 1];
    }
  }

  /** The text has cuts at its commas outside brackets, and splitting gives the parts between them. */
  lemma SplitsAtTopCommas(value: string)
    ensures exists pieces :: AreCuts(value, pieces)
    ensures forall pieces | AreCuts(value, pieces) :: SplitFrom(value, 0, 0, 0) == Parts(pieces)
  {
    hide SplitFrom, Parts;
    var found := CutsExist(value);
    forall pieces | AreCuts(value, pieces)
      ensures SplitFrom(value, 0, 0, 0) == Parts(pieces)
    {
      SplitsPieces("", pieces);
      assert "" + Joined(pieces) == value;
    }
  }

  // ---------- Splitting printed arguments ----------

  // One argument is scanned to its end, and is the part up to there.
  lemma ScanArgument(before: string, a: Argument, rest: string)
    requires IsPadding(a.before) && IsPadding(a.after) && IsLayout(a.layout)
    ensures var value, next := before + ArgumentText(a) + rest, |before| + |ArgumentText(a)|;
            && SplitFrom(value, |before|, |before|, 0) == SplitFrom(value, |before|, next, 0)
            && Part(value[|before|..next]) == [Text(a.layout)]
  {
    hide ArgumentText, DepthOf, NoTopComma, SplitFrom, IsPadding, IsLayout, Strip;
    var text := ArgumentText(a);
    var value := before + text + rest;
    ArgumentIsBalanced(a, 0);
    ScanText(before, text, rest, |before|, 0);
    StripArgument(a);
    TextIsTight(a.layout);
    assert value[|before|..|before| + |text|] == text;
  }

  lemma LastPadding(before: string, pad: string)
    requires IsPadding(pad)
    ensures SplitFrom(before + pad, |before|, |before|, 0) == []
  {
    PaddingIsFlat(pad, 0);
    assert before + pad + "" == before + pad;
    ScanText(before, pad, "", |before|, 0);
    PaddingStripsAway(pad);
    assert (before + pad)[|before|..] == pad;
  }

  // Where an argument ends at a comma, the split goes on behind it.
  lemma CommaCuts(before: string, a: Argument, rest: string)
    requires IsPadding(a.before) && IsPadding(a.after) && IsLayout(a.layout)
    ensures var shifted := before + ArgumentText(a) + ",";
            SplitFrom(shifted + rest, |before|, |before|, 0)
              == [Text(a.layout)] + SplitFrom(shifted + rest, |shifted|, |shifted|, 0)
  {
    var value := before + ArgumentText(a) + ("," + rest);
    var next := |before| + |ArgumentText(a)|;
    assert value == before + ArgumentText(a) + "," + rest;
    ScanArgument(before, a, "," + rest);
    assert value[next] == ',';
  }

  lemma {:induction false} SplitArguments(before: string, args: seq<Argument>, trailing: Option<string>)
    requires args != [] && GoodArguments(args, trailing)
    ensures var value := before + ArgumentsText(args, trailing);
            SplitFrom(value, |before|, |before|, 0) == Texts(args)
    decreases |args|
  {
    hide ArgumentsText, ArgumentText, SplitFrom, IsPadding, IsLayout, Text;
    var text := ArgumentText(args[0]);
    var value := before + ArgumentsText(args, trailing);
    var shifted := before + text + ",";
    var tail := Remainder(args[1..], trailing);
    assert value == before + text + tail by {
      FirstArgument(args, trailing);
    }
    if |args| > 1 {
      var rest := ArgumentsText(args[1..], trailing);
      assert value == shifted + rest;
      CommaCuts(before, args[0], rest);
      SplitArguments(shifted, args[1..], trailing);
      assert Texts(args) == [Text(args[0].layout)] + Texts(args[1..]);
    } else if trailing.Some? {
      assert value == shifted + trailing.value;
      CommaCuts(before, args[0], trailing.value);
      LastPadding(shifted, trailing.value);
      assert Texts(args) == [Text(args[0].layout)] + [];
    } else {
      ScanArgument(before, args[0], "");
      SplitEnds(value, |before|);
      assert value[|before|..] == value[|before|..|value|];
      assert Texts(args) == [Text(args[0].layout)];
    }
  }

  lemma FirstArgument(args: seq<Argument>, trailing: Option<string>)
    requires args != []
    ensures ArgumentsText(args, trailing) == ArgumentText(args[0]) + Remainder(args[1..], trailing)
  {}

  lemma SplitEnds(value: string, start: nat)
    requires start <= |value|
    ensures SplitFrom(value, start, |value|, 0) == Part(value[start..])
  {}

  /** Whatever the layout of a generic type, splitting it with its head gives exactly its printed arguments. */
  lemma GenericUndoesPrinting(l: Layout)
    requires IsLayout(l) && l.Applied?
    ensures Generic(Text(l), l.head) == Some(Texts(l.args))
  {
    var body := ArgumentsText(l.args, l.trailing);
    assert Text(l) == (l.head + "<") + body + ">";
    assert Inside(Text(l), |l.head| + 1) == body;
    SplitArguments("", l.args, l.trailing);
    assert "" + body == body;
  }

  /** A generic type with another head is told apart. */
  lemma OtherHeadsAreRejected(l: Layout, head: string)
    requires IsLayout(l) && IsName(head) && (l.Plain? || l.head != head)
    ensures Generic(Text(l), head).None?
  {
    var marker := head + "<";
    var own := if l.Plain? then l.name else l.head;
    assert marker[|head|] == '<' && marker[..|head|] == head;
    assert Text(l)[..|own|] == own;
    if |own| < |head| {
      assert !IsStructural(head[|own|]) && marker[|own|] == head[|own|];
    } else if |head| < |own| {
      assert !IsStructural(own[|head|]) && Text(l)[|head|] == own[|head|];
    }
    if l.Applied? {
      assert Text(l)[|own|] == '<';
    }
  }
}
