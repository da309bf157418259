/** Error paths as texts: no two of them look the same. */
module ErrorTexts {
  import opened InputErrors
  import opened PathText

  // Member names hold none of the characters that separate segments.
  predicate IsPlain(segment: Segment) {
    segment.FieldSegment? ==>
      segment.name != "" && forall c | c in segment.name :: c != '.' && c != '[' && c != ']'
  }

  predicate ArePlain(path: seq<Segment>) {
    forall segment | segment in path :: IsPlain(segment)
  }

  // A segment by itself: a name, or in brackets a decimal index and what it counts.
  ghost predicate Looks(segment: Segment, text: string) {
    match segment
    case FieldSegment(name) => text == name
    case IndexSegment(index) => exists n :: IsDecimal(n, index) && text == "[" + n + "]"
    case MapKey(index) => exists n :: IsDecimal(n, index) && text == "[key#" + n + "]"
    case MapValue(index) => exists n :: IsDecimal(n, index) && text == "[value#" + n + "]"
  }

  ghost predicate IsDecimal(digits: string, n: nat) {
    AllDigits(digits) && Value(digits) == n
  }

  lemma PrefixLooks(segment: Segment)
    ensures Looks(segment, Prefix(segment))
  {
    if !segment.FieldSegment? {
      DigitsReadBack(segment.index);
      assert IsDecimal(Digits(segment.index), segment.index);
    }
  }

  // What follows a segment: a dot and a member, or a bracket.
  function Rest(path: seq<Segment>): string {
    if path != [] && path[0].FieldSegment? then "." + Rendered(path) else Rendered(path)
  }

  /** A path is its first segment followed by the rest, members set off by dots. */
  lemma RenderedInOrder(path: seq<Segment>)
    requires path != [] && ArePlain(path)
    ensures exists text :: Looks(path[0], text) && Rendered(path) == text + Rest(path[1..])
  {
    PrefixLooks(path[0]);
    StartsPlain(path[0]);
    var rest := path[1..];
    if rest != [] {
      assert rest[0] in path;
      StartsPlain(rest[0]);
      RenderedStarts(rest);
    }
    assert Rendered(path) == Prefix(path[0]) + Rest(rest);
  }

  lemma StartsPlain(segment: Segment)
    requires IsPlain(segment)
    ensures Prefix(segment) != ""
    ensures segment.FieldSegment? <==> Prefix(segment)[0] != '['
  {
    if segment.FieldSegment? {
      assert segment.name[0] in segment.name;
    }
  }

  lemma RenderedStarts(path: seq<Segment>)
    requires path != [] && IsPlain(path[0])
    ensures Rendered(path) != "" && Rendered(path)[0] == Prefix(path[0])[0]
  {
    StartsPlain(path[0]);
  }

  // ---------- One text, one path ----------

  predicate Stops(text: string, stop: set<char>) {
    text == "" || text[0] in stop
  }

  // The part of a text before the first stop is determined by the text.
  lemma {:induction false} SameHead(x: string, s: string, y: string, t: string, stop: set<char>)
    requires x + s == y + t && Stops(s, stop) && Stops(t, stop)
    requires (forall c | c in x :: c !in stop) && (forall c | c in y :: c !in stop)
    ensures x == y && s == t
  {
    assert x != "" ==> (x + s)[0] == x[0] && x[0] in x;
    assert y != "" ==> (y + t)[0] == y[0] && y[0] in y;
    if x == "" || y == "" {
      assert x == "" ==> x + s == s;
      assert y == "" ==> y + t == t;
    } else {
      assert (x + s)[0] == x[0] && (y + t)[0] == y[0];
      assert (x + s)[1..] == x[1..] + s && (y + t)[1..] == y[1..] + t;
      SameHead(x[1..], s, y[1..], t, stop);
      assert x == [x[0]] + x[1..] && y == [y[0]] + y[1..];
    }
  }

  // What a segment in brackets holds.
  function Inner(segment: Segment): string
    requires !segment.FieldSegment?
  {
    match segment
    case IndexSegment(index) => Digits(index)
    case MapKey(index) => "key#" + Digits(index)
    case MapValue(index) => "value#" + Digits(index)
  }

  lemma InnerIsBracketed(segment: Segment)
    requires !segment.FieldSegment?
    ensures Prefix(segment) == "[" + Inner(segment) + "]"
    ensures ']' !in Inner(segment)
  {
    DigitsReadBack(segment.index);
    hide Digits;
    var digits := Digits(segment.index);
    match segment
    case IndexSegment(_) =>
    case MapKey(_) => assert "[key#" + digits + "]" == "[" + ("key#" + digits) + "]";
    case MapValue(_) => assert "[value#" + digits + "]" == "[" + ("value#" + digits) + "]";
  }

  lemma InnerTells(a: Segment, b: Segment)
    requires !a.FieldSegment? && !b.FieldSegment? && Inner(a) == Inner(b)
    ensures a == b
  {
    DigitsReadBack(a.index);
    DigitsReadBack(b.index);
    assert Digits(a.index)[0] in Digits(a.index) && Digits(b.index)[0] in Digits(b.index);
    var digits := if a.IndexSegment? then 0 else if a.MapKey? then 4 else 6;
    assert Inner(a)[0] == if a.IndexSegment? then Digits(a.index)[0] else if a.MapKey? then 'k' else 'v';
    assert Inner(b)[0] == if b.IndexSegment? then Digits(b.index)[0] else if b.MapKey? then 'k' else 'v';
    assert Inner(a)[digits..] == Digits(a.index) && Inner(b)[digits..] == Digits(b.index);
  }

  lemma RestStops(path: seq<Segment>)
    requires path == [] || IsPlain(path[0])
    ensures Stops(Rest(path), {'.', '['})
  {
    if path != [] {
      StartsPlain(path[0]);
      RenderedStarts(path);
    }
  }

  lemma SameRest(a: seq<Segment>, b: seq<Segment>)
    requires (a == [] || IsPlain(a[0])) && (b == [] || IsPlain(b[0])) && Rest(a) == Rest(b)
    ensures Rendered(a) == Rendered(b)
  {
    if a != [] {
      StartsPlain(a[0]);
      RenderedStarts(a);
    }
    if b != [] {
      StartsPlain(b[0]);
      RenderedStarts(b);
    }
    assert Rest(a) != "" && Rest(a)[0] == '.' ==> Rest(a)[1..] == Rendered(a) && Rest(b)[1..] == Rendered(b);
  }

  lemma SameFirst(a: Segment, s: string, b: Segment, t: string)
    requires IsPlain(a) && IsPlain(b) && Prefix(a) + s == Prefix(b) + t
    requires Stops(s, {'.', '['}) && Stops(t, {'.', '['})
    ensures a == b && s == t
  {
    StartsPlain(a);
    StartsPlain(b);
    assert (Prefix(a) + s)[0] == Prefix(a)[0] && (Prefix(b) + t)[0] == Prefix(b)[0];
    if a.FieldSegment? {
      SameHead(a.name, s, b.name, t, {'.', '['});
    } else {
      InnerIsBracketed(a);
      InnerIsBracketed(b);
      Bracketed(Inner(a), s);
      Bracketed(Inner(b), t);
      SameHead(Inner(a), "]" + s, Inner(b), "]" + t, {']'});
      InnerTells(a, b);
      assert ("]" + s)[1..] == s && ("]" + t)[1..] == t;
    }
  }

  lemma Bracketed(inner: string, rest: string)
    ensures ("[" + inner + "]" + rest)[1..] == inner + ("]" + rest)
  {}

  /** Paths with plain member names that have the same text are the same path. */
  lemma {:induction false} TextNamesOnePath(a: seq<Segment>, b: seq<Segment>)
    requires ArePlain(a) && ArePlain(b) && Rendered(a) == Rendered(b)
    ensures a == b
  {
    hide Rendered, Rest, Prefix, IsPlain, Stops;
    assert Rendered([]) == "" by {
      NothingRendered();
    }
    if a != [] {
      assert a[0] in a;
      RenderedStarts(a);
    }
    if b != [] {
      assert b[0] in b;
      RenderedStarts(b);
    }
    if a != [] {
      var s, t := a[1..], b[1..];
      assert (forall x | x in s :: x in a) && (forall x | x in t :: x in b);
      FirstRendered(a);
      FirstRendered(b);
      RestStops(s);
      RestStops(t);
      SameFirst(a[0], Rest(s), b[0], Rest(t));
      SameRest(s, t);
      TextNamesOnePath(s, t);
      assert a == [a[0]] + s && b == [b[0]] + t;
    }
  }

  lemma NothingRendered()
    ensures Rendered([]) == ""
  {}

  lemma FirstRendered(path: seq<Segment>)
    requires path != [] && ArePlain(path)
    ensures Rendered(path) == Prefix(path[0]) + Rest(path[1..])
  {
    var rest := path[1..];
    StartsPlain(path[0]);
    if rest != [] {
      assert rest[0] in path;
      StartsPlain(rest[0]);
      RenderedStarts(rest);
    }
  }
}
