/** Input conversion failures and the path segments attached to them while they unwind. */
module InputErrors {
  import opened Wrappers

  datatype Segment = FieldSegment(name: string) | IndexSegment(index: nat) | MapKey(index: nat) | MapValue(index: nat)

  datatype Reason =
    | WrongType | OutOfRange | NotFinite | TooDeep | BadTimestamp
    | NotOneVariant | UnknownVariantKey | UnitNeedsNone | MissingMember | UnsupportedKey

  // `path` reads from the argument down to the failing node.
  datatype InputError = InputError(path: seq<Segment>, reason: Reason)

  type Converted<T> = Result<T, InputError>

  function Reject<T>(reason: Reason): Converted<T> {
    Failure(InputError([], reason))
  }

  // `map_err(|error| input_error(error, segment, ..))`
  function Under<T>(segment: Segment, r: Converted<T>): Converted<T> {
    match r
    case Success(value) => Success(value)
    case Failure(error) => Failure(InputError([segment] + error.path, error.reason))
  }

  // ---------- The text of a path ----------

  const PATH_LIMIT := 512

  function Digits(n: nat): string {
    if n < 10 then [("0123456789")[n]] else Digits(n / 10) + [("0123456789")[n % 10]]
  }

  function Prefix(segment: Segment): string {
    match segment
    case FieldSegment(name) => name
    case IndexSegment(index) => "[" + Digits(index) + "]"
    case MapKey(index) => "[key#" + Digits(index) + "]"
    case MapValue(index) => "[value#" + Digits(index) + "]"
  }

  function Joined(prefix: string, suffix: string): string {
    if prefix == "" then suffix
    else if suffix == "" then prefix
    else if suffix[0] == '[' then prefix + suffix
    else prefix + "." + suffix
  }

  // The stored detail: path text and truncation flag.
  datatype Detail = Detail(text: string, truncated: bool)

  function Bounded(text: string): Detail {
    if |text| <= PATH_LIMIT then Detail(text, false) else Detail(text[..PATH_LIMIT - 3] + "...", true)
  }

  // What is stored after the segments of `path` are attached, innermost first.
  function Attached(path: seq<Segment>): Detail {
    if path == [] then Detail("", false)
    else
      var inner := Attached(path[1..]);
      var outer := Bounded(Joined(Prefix(path[0]), inner.text));
      Detail(outer.text, inner.truncated || outer.truncated)
  }

  // The dotted path in full.
  function Rendered(path: seq<Segment>): string {
    if path == [] then "" else Joined(Prefix(path[0]), Rendered(path[1..]))
  }

  /** The stored text is the whole path exactly when the path fits; otherwise it is flagged, and bounded. */
  lemma {:induction false} TextIsWholePathOrFlagged(path: seq<Segment>)
    ensures Attached(path).truncated <==> |Rendered(path)| > 512
    ensures Attached(path).text ==
            if |Rendered(path)| <= 512 then Rendered(path) else Rendered(path)[..509] + "..."
  {
    if path != [] {
      TextIsWholePathOrFlagged(path[1..]);
      var inner, whole := Attached(path[1..]).text, Rendered(path[1..]);
      if |whole| > 512 {
        JoinedCut(Prefix(path[0]), whole);
      }
    }
  }

  // Cutting a suffix first changes nothing in front of the cut.
  lemma JoinedCut(prefix: string, whole: string)
    requires |whole| > 512
    ensures var cut := whole[..509] + "...";
            && |Joined(prefix, whole)| > 512
            && (prefix == "" ==> Joined(prefix, cut) == cut)
            && (prefix != "" ==>
                  |Joined(prefix, cut)| > 512 && Joined(prefix, cut)[..509] == Joined(prefix, whole)[..509])
  {
    var cut := whole[..509] + "...";
    assert cut[0] == whole[0];
    if prefix != "" {
      var front := if whole[0] == '[' then prefix else prefix + ".";
      assert Joined(prefix, cut) == front + cut && Joined(prefix, whole) == front + whole;
      assert cut[..509] == whole[..509];
    }
  }
}
