/** Reading struct fields from formatted Rust: rejoining broken lines, and the outer Option. */
module FieldLines {
  import opened Wrappers
  import opened TypeStrings

  function Count(s: string, c: char): nat {
    if s == "" then 0 else (if s[0] == c then 1 else 0) + Count(s[1..], c)
  }

  lemma {:induction false} CountsAreDepth(s: string)
    ensures Count(s, '<') - Count(s, '>') == DepthOf(s)
  {
    if s != "" {
      CountsAreDepth(s[1..]);
    }
  }

  predicate EndsWith(s: string, c: char) {
    s != "" && s[|s| - 1] == c
  }

  // A field is complete once its brackets are closed and it does not end in its colon.
  predicate Complete(field: string) {
    DepthOf(field) <= 0 && !EndsWith(field, ':')
  }

  predicate Opens(line: string) {
    "pub " <= line
  }

  // The fields in the lines, `current` being a field begun before them.
  function JoinFrom(lines: seq<string>, current: string): seq<string> {
    if lines == [] then (if current == "" then [] else [current])
    else
      var line := Strip(lines[0]);
      if current == "" && !Opens(line) then JoinFrom(lines[1..], "")
      else
        var field := if current == "" then line else current + " " + line;
        if Complete(field) then [field] + JoinFrom(lines[1..], "") else JoinFrom(lines[1..], field)
  }

  /** `_join_field_lines`, with the bracket depth kept line by line. */
  method JoinFieldLines(lines: seq<string>) returns (result: seq<string>)
    ensures result == JoinFrom(lines, "")
  {
    hide Opens, EndsWith;
    result := [];
    var current, depth := "", 0;
    for i := 0 to |lines|
      invariant current != "" ==> depth == DepthOf(current)
      invariant JoinFrom(lines, "") == result + JoinFrom(lines[i..], current)
    {
      var line := Strip(lines[i]);
      assert lines[i..][0] == lines[i] && lines[i..][1..] == lines[i + 1..];
      if current == "" && !Opens(line) {
        continue;
      }
      CountsAreDepth(line);
      if current == "" {
        current := line;
        depth := Count(line, '<') - Count(line, '>');
        OpeningIsSome(line);
      } else {
        DepthOfConcat(current, " ");
        DepthOfConcat(current + " ", line);
        current := current + " " + line;
        depth := depth + Count(line, '<') - Count(line, '>');
      }
      if depth <= 0 && !EndsWith(current, ':') {
        result := result + [current];
        current := "";
        depth := 0;
      }
    }
    if current != "" {
      result := result + [current];
    }
  }

  lemma OpeningIsSome(line: string)
    requires Opens(line)
    ensures line != ""
  {
  }

  // ---------- Fields broken over lines ----------

  // A piece of a field on its line.
  datatype Piece = Piece(before: string, text: string, after: string)

  // A field in pieces, after lines (attributes, comments, blanks) that begin no field.
  datatype Broken = Broken(skipped: seq<string>, pieces: seq<Piece>)

  function Line(piece: Piece): string {
    piece.before + piece.text + piece.after
  }

  predicate IsPiece(piece: Piece) {
    && IsPadding(piece.before) && IsPadding(piece.after)
    && piece.text != "" && !IsSpace(piece.text[0]) && !IsSpace(piece.text[|piece.text| - 1])
  }

  // The field the pieces make up.
  function Whole(pieces: seq<Piece>): string {
    if pieces == [] then ""
    else if |pieces| == 1 then pieces[0].text
    else Whole(pieces[..|pieces| - 1]) + " " + pieces[|pieces| - 1].text
  }

  predicate Skipped(lines: seq<string>) {
    forall line | line in lines :: !("pub " <= Strip(line))
  }

  // Broken only after the colon or inside brackets.
  predicate IsBroken(b: Broken) {
    && Skipped(b.skipped)
    && b.pieces != [] && (forall piece | piece in b.pieces :: IsPiece(piece)) && "pub " <= b.pieces[0].text
    && (forall k | 0 < k < |b.pieces| :: DepthOf(Whole(b.pieces[..k])) > 0 || EndsWith(Whole(b.pieces[..k]), ':'))
    && DepthOf(Whole(b.pieces)) <= 0 && !EndsWith(Whole(b.pieces), ':')
  }

  function PieceLines(pieces: seq<Piece>): seq<string> {
    if pieces == [] then [] else [Line(pieces[0])] + PieceLines(pieces[1..])
  }

  function Layouts(fields: seq<Broken>): seq<string> {
    if fields == [] then [] else fields[0].skipped + PieceLines(fields[0].pieces) + Layouts(fields[1..])
  }

  function Wholes(fields: seq<Broken>): seq<string> {
    if fields == [] then [] else [Whole(fields[0].pieces)] + Wholes(fields[1..])
  }

  lemma {:induction false} SkipsLines(skipped: seq<string>, rest: seq<string>)
    requires Skipped(skipped)
    ensures JoinFrom(skipped + rest, "") == JoinFrom(rest, "")
  {
    hide Complete;
    if skipped == [] {
      assert skipped + rest == rest;
    } else {
      assert (skipped + rest)[1..] == skipped[1..] + rest;
      assert skipped[0] in skipped;
      SkipsLines(skipped[1..], rest);
    }
  }

  lemma LineStrips(piece: Piece)
    requires IsPiece(piece)
    ensures Strip(Line(piece)) == piece.text
  {
    var t := piece.text;
    assert Line(piece) == piece.before + (t + piece.after);
    StripLeftPads(piece.before, t + piece.after);
    assert StripLeft(t + piece.after) == t + piece.after;
    StripRightPads(t, piece.after);
    assert StripRight(t) == t;
  }

  // One line goes on with the current field, or begins one.
  lemma OneLine(piece: Piece, rest: seq<string>, current: string)
    requires IsPiece(piece) && (current == "" ==> Opens(piece.text))
    ensures var field := if current == "" then piece.text else current + " " + piece.text;
            JoinFrom([Line(piece)] + rest, current)
            == if Complete(field) then [field] + JoinFrom(rest, "") else JoinFrom(rest, field)
  {
    hide Complete, Strip, Line, IsPiece, Opens;
    LineStrips(piece);
    var lines := [Line(piece)] + rest;
    assert lines[1..] == rest;
  }

  lemma WholeGrows(pieces: seq<Piece>, k: nat)
    requires k < |pieces|
    ensures Whole(pieces[..k + 1]) == if k == 0 then pieces[0].text else Whole(pieces[..k]) + " " + pieces[k].text
  {
    assert pieces[..k + 1][..k] == pieces[..k];
  }

  // The pieces from the `k`-th on complete the field begun by the earlier ones.
  lemma {:induction false} JoinsPieces(b: Broken, k: nat, rest: seq<string>)
    requires IsBroken(b) && k < |b.pieces|
    ensures JoinFrom(PieceLines(b.pieces[k..]) + rest, Whole(b.pieces[..k])) == [Whole(b.pieces)] + JoinFrom(rest, "")
    decreases |b.pieces| - k
  {
    hide Strip, DepthOf, IsPiece, Line, JoinFrom, Whole;
    var piece, later := b.pieces[k], PieceLines(b.pieces[k + 1..]) + rest;
    assert b.pieces[k..] == [piece] + b.pieces[k + 1..];
    assert PieceLines(b.pieces[k..]) + rest == [Line(piece)] + later;
    assert piece in b.pieces;
    NothingWhole();
    if k > 0 {
      WholeIsSome(b.pieces[..k]);
    } else {
      assert b.pieces[..0] == [];
    }
    OneLine(piece, later, Whole(b.pieces[..k]));
    WholeGrows(b.pieces, k);
    if k + 1 == |b.pieces| {
      assert b.pieces[..k + 1] == b.pieces;
      assert b.pieces[k + 1..] == [] && PieceLines([]) + rest == rest;
    } else {
      StillOpen(b, k + 1);
      JoinsPieces(b, k + 1, rest);
    }
  }

  lemma NothingWhole()
    ensures Whole([]) == ""
  {
  }

  lemma StillOpen(b: Broken, k: nat)
    requires IsBroken(b) && 0 < k < |b.pieces|
    ensures !Complete(Whole(b.pieces[..k]))
  {
    hide Whole, DepthOf;
  }

  lemma WholeIsSome(pieces: seq<Piece>)
    requires pieces != [] && forall piece | piece in pieces :: IsPiece(piece)
    ensures Whole(pieces) != ""
  {
    assert pieces[0] in pieces;
  }

  /** Fields come back one each, in order, however they were broken. */
  lemma {:induction false} FieldsRejoin(fields: seq<Broken>, trailing: seq<string>)
    requires Skipped(trailing) && forall b | b in fields :: IsBroken(b)
    ensures JoinFrom(Layouts(fields) + trailing, "") == Wholes(fields)
  {
    hide IsBroken, Skipped, JoinFrom;
    NothingLeft();
    if fields == [] {
      SkipsLines(trailing, []);
      assert Layouts(fields) + trailing == trailing + [];
    } else {
      var b, rest := fields[0], Layouts(fields[1..]) + trailing;
      assert b in fields;
      assert IsBroken(b) ==> Skipped(b.skipped) && b.pieces != [] by {
        BrokenHasPieces(b);
      }
      FieldsRejoin(fields[1..], trailing);
      assert Layouts(fields) + trailing == b.skipped + (PieceLines(b.pieces) + rest);
      SkipsLines(b.skipped, PieceLines(b.pieces) + rest);
      assert b.pieces[0..] == b.pieces && b.pieces[..0] == [];
      JoinsPieces(b, 0, rest);
    }
  }

  lemma BrokenHasPieces(b: Broken)
    requires IsBroken(b)
    ensures Skipped(b.skipped) && b.pieces != []
  {
    hide Skipped;
  }

  lemma NothingLeft()
    ensures JoinFrom([], "") == []
  {
  }

  // ---------- The outer Option ----------

  const OPTION := "::std::option::Option"

  function DropCommas(s: string): string {
    if s != "" && s[|s| - 1] == ',' then DropCommas(s[..|s| - 1]) else s
  }

  // `.strip().rstrip(",").strip()`
  function Tidy(s: string): string {
    Strip(DropCommas(Strip(s)))
  }

  // The type of a field, and whether its outer Option was taken off.
  function OuterOption(rustType: string): (string, bool) {
    if OPTION + "<" <= rustType && EndsWith(rustType, '>') && Inside(rustType, |OPTION| + 1) != ""
    then (Tidy(Inside(rustType, |OPTION| + 1)), true)
    else (Tidy(rustType), false)
  }

  lemma TightIsTidy(t: string)
    requires t != "" && !IsSpace(t[0]) && !IsSpace(t[|t| - 1]) && t[|t| - 1] != ','
    ensures Strip(t) == t && Tidy(t) == t
  {
  }

  lemma TextEndsFlat(l: Layout)
    requires IsLayout(l)
    ensures Text(l) != "" && Text(l)[|Text(l)| - 1] != ','
  {
  }

  lemma TidyArgument(a: Argument, trailing: Option<string>)
    requires IsPadding(a.before) && IsPadding(a.after) && IsLayout(a.layout)
    requires (trailing.Some? ==> IsPadding(trailing.value))
    ensures Tidy(ArgumentsText([a], trailing)) == Text(a.layout)
  {
    hide Text;
    var t := Text(a.layout);
    TextIsTight(a.layout);
    TextEndsFlat(a.layout);
    StripArgument(a);
    TightIsTidy(t);
    assert [a][1..] == [];
    if trailing.None? {
      assert ArgumentsText([a], trailing) == ArgumentText(a);
    } else {
      var body := t + a.after + ",";
      assert ArgumentsText([a], trailing) == a.before + (body + trailing.value);
      StripLeftPads(a.before, body + trailing.value);
      assert StripLeft(body + trailing.value) == body + trailing.value;
      StripRightPads(body, trailing.value);
      assert StripRight(body) == body;
      assert body[..|body| - 1] == t + a.after;
      PaddedHasNoComma(t, a.after);
      StripRightPads(t, a.after);
      assert StripLeft(t + a.after) == t + a.after;
      assert StripRight(t) == t;
    }
  }

  lemma PaddedHasNoComma(t: string, pad: string)
    requires t != "" && t[|t| - 1] != ',' && IsPadding(pad)
    ensures DropCommas(t + pad) == t + pad
  {
    if pad != "" {
      assert (t + pad)[|t + pad| - 1] in pad;
    }
  }

  /** An optional field loses exactly its outer Option; every other type is kept as printed. */
  lemma OuterOptionIsRemoved(l: Layout)
    requires IsLayout(l) && (l.Applied? && l.head == "::std::option::Option" ==> |l.args| == 1)
    ensures OuterOption(Text(l)) ==
            if l.Applied? && l.head == "::std::option::Option" then (Text(l.args[0].layout), true) else (Text(l), false)
  {
    TextIsTight(l);
    TextEndsFlat(l);
    TightIsTidy(Text(l));
    if l.Applied? && l.head == OPTION {
      var inside := ArgumentsText(l.args, l.trailing);
      assert l.args == [l.args[0]];
      assert Text(l) == (OPTION + "<") + inside + ">";
      assert Inside(Text(l), |OPTION| + 1) == inside;
      TidyArgument(l.args[0], l.trailing);
      TextIsTight(l.args[0].layout);
    } else {
      OtherHeadsAreRejected(l, OPTION);
    }
  }
}
