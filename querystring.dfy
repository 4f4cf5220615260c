/**
 * How a link's query string is read back into request parameters, for the
 * query strings the listing writes: the part of the URL after the first `?`
 * and before a `#`, split at `&` into `key=value` segments, the key ending at
 * the first `]=` or else the first `=`, empty segments skipped, `+` read as a
 * space.
 */
module QueryString {
  import opened Options

  function FirstIndexOf(s: string, c: char): (i: nat)
    requires c in s
    ensures i < |s| && s[i] == c && c !in s[..i]
  {
    if s[0] == c then 0
    else
      var j := FirstIndexOf(s[1..], c);
      assert s[..j + 1] == [s[0]] + s[1..][..j];
      1 + j
  }

  function LastIndexOf(s: string, c: char): (i: nat)
    requires c in s
    ensures i < |s| && s[i] == c && c !in s[i + 1..]
  {
    if s[|s| - 1] == c then |s| - 1
    else
      var i := LastIndexOf(s[..|s| - 1], c);
      assert s[i + 1..] == s[..|s| - 1][i + 1..] + [s[|s| - 1]];
      i
  }

  /** In `a + [c] + b` where `a` lacks `c`, the first `c` is the one after `a`. */
  lemma {:induction false} FirstIndexAfter(a: string, c: char, b: string)
    requires c !in a
    ensures FirstIndexOf(a + [c] + b, c) == |a|
    decreases |a|
  {
    if a != [] {
      assert (a + [c] + b)[1..] == a[1..] + [c] + b;
      FirstIndexAfter(a[1..], c, b);
    }
  }

  /** `s.split(sep)`: the pieces between the separators, at least one. */
  function Split(s: string, sep: char): (parts: seq<string>)
    ensures |parts| > 0
    decreases |s|
  {
    if sep !in s then [s]
    else
      var i := LastIndexOf(s, sep);
      Split(s[..i], sep) + [s[i + 1..]]
  }

  /** `parts.join(sep)`. */
  function Join(parts: seq<string>, sep: char): string
    requires |parts| > 0
  {
    if |parts| == 1 then parts[0] else Join(parts[..|parts| - 1], sep) + [sep] + parts[|parts| - 1]
  }

  /** Splitting a join gives back the pieces, provided no piece holds the separator. */
  lemma {:induction false} SplitJoin(parts: seq<string>, sep: char)
    requires |parts| > 0
    requires forall k :: 0 <= k < |parts| ==> sep !in parts[k]
    ensures Split(Join(parts, sep), sep) == parts
  {
    if |parts| > 1 {
      var init, last := parts[..|parts| - 1], parts[|parts| - 1];
      var head := Join(init, sep);
      var s := head + [sep] + last;
      assert s[|head|] == sep;
      var i := LastIndexOf(s, sep);
      assert i == |head|;
      assert s[..i] == head;
      assert s[i + 1..] == last;
      SplitJoin(init, sep);
      assert init + [last] == parts;
    }
  }

  /** Decoding of one component: `+` is a space; a percent-escape is outside this model. */
  function Decode(s: string): Option<string> {
    if '%' in s then None else Some(seq(|s|, i requires 0 <= i < |s| => if s[i] == '+' then ' ' else s[i]))
  }

  /** The position of the first `]=` in `s`, if there is one. */
  function FindBracketEquals(s: string): (r: Option<nat>)
    ensures r.Some? ==> r.value + 1 < |s| && s[r.value] == ']' && s[r.value + 1] == '='
    ensures r.Some? ==> forall j :: 0 <= j < r.value ==> !(s[j] == ']' && s[j + 1] == '=')
    ensures r.None? ==> forall j :: 0 <= j < |s| - 1 ==> !(s[j] == ']' && s[j + 1] == '=')
    decreases |s|
  {
    if |s| < 2 then None
    else if s[0] == ']' && s[1] == '=' then Some(0)
    else
      match FindBracketEquals(s[1..])
      case Some(i) => Some(i + 1)
      case None => None
  }

  /**
   * One segment, split as Express's default query parser (`qs`) splits it: the
   * key ends at the `=` of the first `]=` if there is one, and at the first
   * `=` otherwise; without `=` the value is empty.
   */
  function ReadPair(segment: string): (string, string) {
    match FindBracketEquals(segment)
    case Some(i) => (segment[..i + 1], segment[i + 2..])
    case None =>
      if '=' in segment then
        var i := FirstIndexOf(segment, '=');
        (segment[..i], segment[i + 1..])
      else (segment, "")
  }

  /** A value holding `]=` moves the split: `search=a]=b` is read as the key `search=a]` with the value `b`. */
  lemma BracketMovesKey()
    ensures ReadPair("search=a]=b") == ("search=a]", "b")
  {
    var s := "search=a]=b";
    assert s[8] == ']' && s[9] == '=';
    assert forall j :: 0 <= j < 8 ==> s[j] != ']';
    assert FindBracketEquals(s) == Some(8);
    assert s[..9] == "search=a]" && s[10..] == "b";
  }

  function ReadSegments(segments: seq<string>): Option<seq<(string, string)>>
    decreases |segments|
  {
    if segments == [] then Some([])
    else if segments[0] == "" then ReadSegments(segments[1..])
    else
      var (k, v) := ReadPair(segments[0]);
      match (Decode(k), Decode(v), ReadSegments(segments[1..]))
      case (Some(key), Some(value), Some(rest)) => Some([(key, value)] + rest)
      case _ => None
  }

  /** The query string of a URL: after the first `?`, up to a `#`. */
  function QueryOf(url: string): string {
    if '?' !in url then ""
    else
      var rest := url[FirstIndexOf(url, '?') + 1..];
      if '#' in rest then rest[..FirstIndexOf(rest, '#')] else rest
  }

  /** The query string of `origin?x` is `x` when the origin holds no `?` and `x` no `#`. */
  lemma QueryAfterMark(origin: string, x: string)
    requires '?' !in origin && '#' !in x
    ensures QueryOf(origin + "?" + x) == x
  {
    var url := origin + "?" + x;
    assert url == origin + ['?'] + x;
    FirstIndexAfter(origin, '?', x);
    assert url[|origin| + 1..] == x;
  }

  /** The parameters of a URL as key/value pairs, in the order they occur. */
  function ReadQuery(url: string): Option<seq<(string, string)>> {
    ReadSegments(Split(QueryOf(url), '&'))
  }

  /** The value of the first parameter named `key`. */
  function Lookup(pairs: seq<(string, string)>, key: string): Option<string>
    decreases |pairs|
  {
    if pairs == [] then None
    else if pairs[0].0 == key then Some(pairs[0].1)
    else Lookup(pairs[1..], key)
  }

  /** `s` holds no `]` immediately followed by `=`. */
  predicate NoBracketEquals(s: string) {
    forall j :: 0 <= j < |s| - 1 ==> !(s[j] == ']' && s[j + 1] == '=')
  }

  /**
   * A segment `k=v` is read back as `(k, v)` when the key holds neither `]` nor
   * `=` and the value holds no `]=`; a `]` elsewhere in the value is harmless.
   */
  lemma ReadPairOfSegment(k: string, v: string)
    requires ']' !in k && '=' !in k && NoBracketEquals(v)
    ensures ReadPair(k + "=" + v) == (k, v)
  {
    var seg := k + "=" + v;
    assert seg == k + ['='] + v;
    forall j | 0 <= j < |seg| - 1 ensures !(seg[j] == ']' && seg[j + 1] == '=') {
      if j < |k| {
        assert seg[j] == k[j];
      } else if j > |k| {
        assert seg[j] == v[j - |k| - 1] && seg[j + 1] == v[j - |k|];
      }
    }
    FirstIndexAfter(k, '=', v);
    assert seg[..|k|] == k && seg[|k| + 1..] == v;
  }

  /** So `search=a]b` is the key `search` with the value `a]b`. */
  lemma LoneBracketKept()
    ensures ReadPair("search=a]b") == ("search", "a]b")
  {
    var k, v := "search", "a]b";
    assert NoBracketEquals(v) by {
      assert v[2] == 'b';
    }
    assert ']' !in k && '=' !in k;
    ReadPairOfSegment(k, v);
    assert k + "=" + v == "search=a]b";
  }

  /** The lookup finds the value of the first pair whose key is `key`. */
  lemma {:induction false} LookupFirst(pairs: seq<(string, string)>, key: string, i: nat)
    requires i < |pairs| && pairs[i].0 == key
    requires forall j :: 0 <= j < i ==> pairs[j].0 != key
    ensures Lookup(pairs, key) == Some(pairs[i].1)
    decreases i
  {
    if i > 0 {
      assert forall j :: 0 <= j < i - 1 ==> pairs[1..][j] == pairs[j + 1];
      LookupFirst(pairs[1..], key, i - 1);
    }
  }

  /** Characters that change meaning inside a query string. */
  predicate Plain(s: string) {
    '&' !in s && '#' !in s && '%' !in s && '+' !in s && ']' !in s
  }

  /** The segment `key=value`. */
  function Segment(p: (string, string)): string {
    p.0 + "=" + p.1
  }

  function Segments(pairs: seq<(string, string)>): (r: seq<string>)
    ensures |r| == |pairs|
    ensures forall k :: 0 <= k < |pairs| ==> r[k] == Segment(pairs[k])
  {
    seq(|pairs|, k requires 0 <= k < |pairs| => Segment(pairs[k]))
  }

  /** The parameter names the listing writes need no escaping. */
  lemma PlainKeys(k: string)
    requires k in ["page", "limit", "order", "sortBy", "search", "sale"]
    ensures '=' !in k && Plain(k)
  {
  }

  /** Writing one more pair adds one more separator and its segment. */
  lemma JoinSegmentsSnoc(first: (string, string), pairs: seq<(string, string)>, sep: char)
    requires |pairs| > 0
    ensures Join(Segments([first] + pairs), sep) ==
      Join(Segments([first] + pairs[..|pairs| - 1]), sep) + [sep] + Segment(pairs[|pairs| - 1])
  {
    var segs := Segments([first] + pairs);
    assert segs[..|segs| - 1] == Segments([first] + pairs[..|pairs| - 1]);
  }

  predicate PlainPairs(pairs: seq<(string, string)>) {
    forall k :: 0 <= k < |pairs| ==> '=' !in pairs[k].0 && Plain(pairs[k].0) && Plain(pairs[k].1)
  }

  lemma DecodePlain(s: string)
    requires Plain(s)
    ensures Decode(s) == Some(s)
  {
    var d := seq(|s|, i requires 0 <= i < |s| => if s[i] == '+' then ' ' else s[i]);
    assert forall i :: 0 <= i < |s| ==> s[i] != '+';
    assert d == s;
  }

  lemma {:induction false} ReadSegmentsOfPairs(pairs: seq<(string, string)>)
    requires PlainPairs(pairs)
    ensures ReadSegments(Segments(pairs)) == Some(pairs)
    decreases |pairs|
  {
    if pairs != [] {
      var (k, v) := pairs[0];
      var seg := Segment(pairs[0]);
      assert seg[|k|] == '=';
      assert FirstIndexOf(seg, '=') == |k|;
      assert seg[..|k|] == k && seg[|k| + 1..] == v;
      assert Segments(pairs)[0] == seg && seg != "";
      assert ReadPair(seg) == (k, v);
      DecodePlain(k);
      DecodePlain(v);
      assert PlainPairs(pairs[1..]) by {
        assert forall j :: 0 <= j < |pairs| - 1 ==> pairs[1..][j] == pairs[j + 1];
      }
      ReadSegmentsOfPairs(pairs[1..]);
      assert Segments(pairs)[1..] == Segments(pairs[1..]);
      assert ReadSegments(Segments(pairs)) == Some([(k, v)] + pairs[1..]);
      assert [(k, v)] + pairs[1..] == pairs;
    }
  }

  /**
   * Writing key/value pairs as `k=v` joined by `&` and reading them back gives
   * the pairs, when no key holds `=` and nothing holds `&`, `#`, `%`, `+` or `]`.
   */
  lemma WriteThenRead(pairs: seq<(string, string)>)
    requires |pairs| > 0 && PlainPairs(pairs)
    ensures ReadSegments(Split(Join(Segments(pairs), '&'), '&')) == Some(pairs)
  {
    var segs := Segments(pairs);
    forall k | 0 <= k < |segs| ensures '&' !in segs[k] {
      assert segs[k] == pairs[k].0 + "=" + pairs[k].1;
    }
    SplitJoin(segs, '&');
    ReadSegmentsOfPairs(pairs);
  }
}
