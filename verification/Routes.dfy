/** runtime/http.c: matching a request path against a route pattern. */
module Routes {
  import opened Basics
  import opened Texts

  const MAX_PATH_PARAMS := 32

  datatype Param = Param(name: string, value: string)

  // ----- segments -----

  function SkipSlashes(t: string): (u: string)
    ensures |u| <= |t| && (u != "" ==> u[0] != '/')
  {
    if t != "" && t[0] == '/' then SkipSlashes(t[1..]) else t
  }

  function TrimSlashes(t: string): string {
    if t != "" && t[|t| - 1] == '/' then TrimSlashes(t[..|t| - 1]) else t
  }

  /** The segment a text starts with. */
  function Segment(t: string): string {
    t[..IndexOf(t, '/')]
  }

  /** Each non-empty segment with all that follows it, slashes at the very end aside. */
  function Tails(t: string): (r: seq<string>)
    decreases |t|
  {
    var u := SkipSlashes(t);
    if u == "" then [] else [TrimSlashes(u)] + Tails(u[IndexOf(u, '/')..])
  }

  /** The non-empty segments. */
  function Segments(t: string): seq<string>
    decreases |t|
  {
    var u := SkipSlashes(t);
    if u == "" then [] else [Segment(u)] + Segments(u[IndexOf(u, '/')..])
  }

  /** The path up to a query or a fragment. */
  function PathOnly(path: string): (r: string)
    ensures |r| <= |path| && r == path[..|r|]
    ensures '?' !in r && '#' !in r && (|r| < |path| ==> path[|r|] == '?' || path[|r|] == '#')
  {
    if path == "" || path[0] == '?' || path[0] == '#' then "" else [path[0]] + PathOnly(path[1..])
  }

  predicate EndsInSlash(t: string) {
    t != "" && t[|t| - 1] == '/'
  }

  // ----- patterns -----

  /** What one pattern segment asks for. */
  datatype Item = Literal(text: string) | Capture(name: string) | Rest(name: string) | Any | Never

  predicate EndsInDots(p: string) {
    |p| >= 3 && p[|p| - 3..] == "..."
  }

  function ItemOf(p: string): Item
    requires p != ""
  {
    if p[0] == ':' && |p| > 4 && EndsInDots(p) then Rest(p[1..|p| - 3])
    else if p[0] == ':' then if |p| < 2 then Never else Capture(p[1..])
    else if |p| >= 2 && p[0] == '{' && p[|p| - 1] == '}' then if |p| == 2 then Never else Capture(p[1..|p| - 1])
    else if p == "*" then Any
    else Literal(p)
  }

  predicate AllNonEmpty(ps: seq<string>) {
    forall i | 0 <= i < |ps| :: ps[i] != ""
  }

  function Found(p: Param, more: Option<seq<Param>>): Option<seq<Param>> {
    if more.Some? then Some([p] + more.value) else None
  }

  /** The captures of a match of pattern segments against path segments; None when they do not match. A rest
      segment must end the pattern, with no slash behind it. */
  function Captures(ps: seq<string>, closed: bool, tails: seq<string>): Option<seq<Param>>
    requires AllNonEmpty(ps)
    decreases |ps|
  {
    if ps == [] && tails == [] then Some([])
    else if ps == [] || tails == [] then None
    else
      match ItemOf(ps[0])
      case Rest(name) => if |ps| == 1 && !closed then Some([Param(name, tails[0])]) else None
      case Capture(name) => Found(Param(name, Segment(tails[0])), Captures(ps[1..], closed, tails[1..]))
      case Any => Captures(ps[1..], closed, tails[1..])
      case Literal(text) => if text == Segment(tails[0]) then Captures(ps[1..], closed, tails[1..]) else None
      case Never => None
  }

  /** What orbit_route_match captures from a path. */
  function Route(pattern: string, path: string): Option<seq<Param>> {
    SegmentsNonEmpty(pattern);
    Captures(Segments(pattern), EndsInSlash(pattern), Tails(PathOnly(path)))
  }

  lemma {:induction false} SegmentsNonEmpty(t: string)
    ensures AllNonEmpty(Segments(t))
    decreases |t|
  {
    var u := SkipSlashes(t);
    if u != "" { SegmentsNonEmpty(u[IndexOf(u, '/')..]); }
  }

  // ----- the verdict -----

  predicate IsRest(p: string) {
    p != "" && ItemOf(p).Rest?
  }

  /** One pattern segment accepts one path segment. */
  predicate Fits(p: string, s: string) {
    p != "" &&
    match ItemOf(p)
    case Literal(text) => text == s
    case Capture(_) => true
    case Any => true
    case Rest(_) => false
    case Never => false
  }

  /** The first `n` pattern segments accept the first `n` path segments. */
  predicate FitsFirst(ps: seq<string>, segs: seq<string>, n: nat)
    requires n <= |ps| && n <= |segs|
  {
    forall i | 0 <= i < n :: Fits(ps[i], segs[i])
  }

  /** When a route matches, said about the two segment lists alone. */
  predicate Verdict(ps: seq<string>, closed: bool, segs: seq<string>) {
    if ps != [] && IsRest(ps[|ps| - 1]) then
      !closed && |segs| >= |ps| && FitsFirst(ps, segs, |ps| - 1)
    else
      |segs| == |ps| && FitsFirst(ps, segs, |ps|)
  }

  function Heads(tails: seq<string>): (r: seq<string>)
    ensures |r| == |tails| && forall i | 0 <= i < |tails| :: r[i] == Segment(tails[i])
  {
    if tails == [] then [] else [Segment(tails[0])] + Heads(tails[1..])
  }

  lemma {:induction false} FitsCons(ps: seq<string>, segs: seq<string>, n: nat)
    requires 0 < n <= |ps| && n <= |segs|
    ensures FitsFirst(ps, segs, n) <==> Fits(ps[0], segs[0]) && FitsFirst(ps[1..], segs[1..], n - 1)
  {
    hide Fits;
    if Fits(ps[0], segs[0]) && FitsFirst(ps[1..], segs[1..], n - 1) {
      forall i | 0 <= i < n ensures Fits(ps[i], segs[i]) {
        if i > 0 { assert Fits(ps[1..][i - 1], segs[1..][i - 1]); }
      }
    }
    if FitsFirst(ps, segs, n) {
      forall i | 0 <= i < n - 1 ensures Fits(ps[1..][i], segs[1..][i]) { assert Fits(ps[i + 1], segs[i + 1]); }
    }
  }

  /** A route matches exactly when its segments accept the path's one by one, a final rest segment taking at least one
      and all that follow. */
  lemma {:induction false} VerdictExact(ps: seq<string>, closed: bool, tails: seq<string>)
    requires AllNonEmpty(ps)
    ensures Captures(ps, closed, tails).Some? <==> Verdict(ps, closed, Heads(tails))
    decreases |ps|
  {
    hide ItemOf, Fits, FitsFirst;
    var segs := Heads(tails);
    if ps != [] && tails != [] {
      VerdictExact(ps[1..], closed, tails[1..]);
      assert segs[1..] == Heads(tails[1..]);
      FitsOrRest(ps[0], segs[0]);
      VerdictCons(ps, closed, segs);
    }
    NoneFit(ps, segs);
  }

  lemma {:induction false} NoneFit(ps: seq<string>, segs: seq<string>)
    ensures FitsFirst(ps, segs, 0)
  {
  }

  lemma {:induction false} FitsOrRest(p: string, s: string)
    requires p != ""
    ensures Fits(p, s) <==> ItemOf(p).Capture? || ItemOf(p).Any? || ItemOf(p) == Literal(s)
    ensures IsRest(p) <==> ItemOf(p).Rest?
  {
  }

  lemma {:induction false} VerdictCons(ps: seq<string>, closed: bool, segs: seq<string>)
    requires AllNonEmpty(ps) && ps != [] && segs != []
    ensures Verdict(ps, closed, segs) <==>
            if IsRest(ps[0]) then |ps| == 1 && !closed else Fits(ps[0], segs[0]) && Verdict(ps[1..], closed, segs[1..])
  {
    hide Fits, FitsFirst, IsRest;
    NoneFit(ps, segs);
    NoneFit(ps[1..], segs[1..]);
    RestNeverFits(ps[0], segs[0]);
    if |segs| >= |ps| {
      FitsCons(ps, segs, |ps|);
      if |ps| > 1 { FitsCons(ps, segs, |ps| - 1); }
    }
  }

  lemma {:induction false} RestNeverFits(p: string, s: string)
    ensures IsRest(p) ==> !Fits(p, s)
  {
  }

  // ----- slashes -----

  /** The segments of the tails are the segments of the text. */
  lemma {:induction false} HeadsAreSegments(t: string)
    ensures Heads(Tails(t)) == Segments(t)
    decreases |t|
  {
    var u := SkipSlashes(t);
    if u != "" {
      var n := IndexOf(u, '/');
      HeadsAreSegments(u[n..]);
      TrimKeepsSegment(u);
      var tails := Tails(t);
      assert tails[1..] == Tails(u[n..]);
      assert Heads(tails) == [Segment(tails[0])] + Heads(tails[1..]);
    }
  }

  lemma {:induction false} TrimKeepsSegment(u: string)
    requires u != "" && u[0] != '/'
    ensures TrimSlashes(u) != "" && TrimSlashes(u)[0] == u[0] && Segment(TrimSlashes(u)) == Segment(u)
  {
    if u[|u| - 1] == '/' {
      var v := u[..|u| - 1];
      TrimKeepsSegment(v);
      var n := IndexOf(v, '/');
      assert u[..n] == v[..n];
      IndexOfIs(u, '/', n);
    }
  }

  lemma {:induction false} SegmentsStep(t: string)
    requires t != ""
    ensures t[0] == '/' ==> Segments(t) == Segments(t[1..])
    ensures t[0] != '/' ==> Segments(t) == [t[..IndexOf(t, '/')]] + Segments(t[IndexOf(t, '/')..])
  {
    hide IndexOf;
  }

  /** One more slash beside a slash changes no segment. */
  lemma {:induction false} RepeatedSlash(a: string, b: string)
    ensures Segments(a + "//" + b) == Segments(a + "/" + b)
    decreases |a|
  {
    hide Segments, IndexOf;
    var t, t' := a + "/" + b, a + "//" + b;
    SegmentsStep(t);
    SegmentsStep(t');
    if a == "" {
      assert t == "/" + b && t' == "//" + b;
      assert t'[1..] == t;
    } else if a[0] == '/' {
      assert t[1..] == a[1..] + "/" + b && t'[1..] == a[1..] + "//" + b;
      RepeatedSlash(a[1..], b);
    } else {
      var n := IndexOf(a, '/');
      SegmentEnd(a, "/" + b);
      SegmentEnd(a, "//" + b);
      assert a + ("/" + b) == t && a + ("//" + b) == t';
      FirstSegment(a);
      assert t[n..] == a[n..] + "/" + b && t'[n..] == a[n..] + "//" + b;
      RepeatedSlash(a[n..], b);
      assert t[..n] == t'[..n];
    }
  }

  lemma {:induction false} FirstSegment(a: string)
    requires a != "" && a[0] != '/'
    ensures 0 < IndexOf(a, '/')
  {
  }

  lemma {:induction false} SegmentEnd(a: string, b: string)
    requires b != "" && b[0] == '/'
    ensures IndexOf(a + b, '/') == IndexOf(a, '/')
  {
    var n := IndexOf(a, '/');
    assert (a + b)[..n] == a[..n];
    IndexOfIs(a + b, '/', n);
  }

  /** A slash at the end changes no segment. */
  lemma {:induction false} TrailingSlash(t: string)
    ensures Segments(t + "/") == Segments(t)
    decreases |t|
  {
    if t == "" {
      assert t + "/" == "/" && "/"[1..] == "";
    } else if t[0] == '/' {
      assert (t + "/")[1..] == t[1..] + "/";
      TrailingSlash(t[1..]);
    } else {
      var n := IndexOf(t, '/');
      SegmentEnd(t, "/");
      assert (t + "/")[n..] == t[n..] + "/" && (t + "/")[..n] == t[..n];
      TrailingSlash(t[n..]);
    }
  }

  lemma {:induction false} RouteVerdict(pattern: string, path: string)
    ensures Route(pattern, path).Some? <==> Verdict(Segments(pattern), EndsInSlash(pattern), Segments(PathOnly(path)))
  {
    hide Verdict, Captures;
    SegmentsNonEmpty(pattern);
    VerdictExact(Segments(pattern), EndsInSlash(pattern), Tails(PathOnly(path)));
    HeadsAreSegments(PathOnly(path));
  }

  /** Repeated and trailing slashes in a path never change the verdict. */
  lemma {:induction false} PathSlashesIgnored(pattern: string, a: string, b: string)
    requires '?' !in a + b && '#' !in a + b
    ensures Route(pattern, a + "//" + b).Some? <==> Route(pattern, a + "/" + b).Some?
    ensures Route(pattern, a + "/").Some? <==> Route(pattern, a).Some?
  {
    hide Route, Verdict, Segments;
    PathWhole(a + "//" + b);
    PathWhole(a + "/" + b);
    PathWhole(a + "/");
    PathWhole(a);
    RepeatedSlash(a, b);
    TrailingSlash(a);
    RouteVerdict(pattern, a + "//" + b);
    RouteVerdict(pattern, a + "/" + b);
    RouteVerdict(pattern, a + "/");
    RouteVerdict(pattern, a);
  }

  lemma {:induction false} PathWhole(t: string)
    requires '?' !in t && '#' !in t
    ensures PathOnly(t) == t
  {
    var r := PathOnly(t);
    assert forall i | 0 <= i < |t| :: t[i] in t;
  }

  /** Nor do repeated slashes in a pattern; a trailing one does exactly when the pattern ends in a rest segment. */
  lemma {:induction false} PatternSlashes(a: string, b: string, path: string)
    ensures Route(a + "//" + b, path).Some? <==> Route(a + "/" + b, path).Some?
    ensures Route(a + "/", path).Some? <==>
            Route(a, path).Some? && !(Segments(a) != [] && IsRest(Segments(a)[|Segments(a)| - 1]))
  {
    hide Route, Segments, IsRest, FitsFirst;
    RepeatedSlash(a, b);
    TrailingSlash(a);
    RouteVerdict(a + "//" + b, path);
    RouteVerdict(a + "/" + b, path);
    RouteVerdict(a + "/", path);
    RouteVerdict(a, path);
    assert EndsInSlash(a + "//" + b) <==> EndsInSlash(a + "/" + b);
  }

  // ----- the matcher -----

  lemma {:induction false} SkipMore(t: string)
    ensures t != "" && t[0] == '/' ==> SkipSlashes(t) == SkipSlashes(t[1..])
    ensures t == "" || t[0] != '/' ==> SkipSlashes(t) == t
  {
  }

  /** Skips slashes from `p` on. */
  method PassSlashes(t: string, p: nat) returns (q: nat)
    requires p <= |t|
    ensures p <= q <= |t| && t[q..] == SkipSlashes(t[p..])
  {
    hide SkipSlashes;
    q := p;
    while q < |t| && t[q] == '/'
      invariant p <= q <= |t| && SkipSlashes(t[p..]) == SkipSlashes(t[q..])
    {
      SkipMore(t[q..]);
      assert t[q..][1..] == t[q + 1..];
      q := q + 1;
    }
    SkipMore(t[q..]);
  }

  /** The end of the segment that starts at `p`. */
  method SegmentEndAt(t: string, p: nat) returns (e: nat)
    requires p <= |t|
    ensures e == p + IndexOf(t[p..], '/')
  {
    hide IndexOf;
    e := p;
    while e < |t| && t[e] != '/'
      invariant p <= e <= |t| && '/' !in t[p..e]
    {
      assert t[p..e + 1] == t[p..e] + [t[e]];
      e := e + 1;
    }
    assert t[p..][..e - p] == t[p..e];
    IndexOfIs(t[p..], '/', e - p);
  }

  /** The end of the path proper. */
  method PathEndOf(path: string) returns (n: nat)
    ensures n == |PathOnly(path)|
  {
    n := 0;
    assert path[0..] == path;
    while n < |path| && path[n] != '?' && path[n] != '#'
      invariant n <= |path| && |PathOnly(path)| == n + |PathOnly(path[n..])|
    {
      assert path[n..][1..] == path[n + 1..];
      n := n + 1;
    }
  }

  /** The value of a rest segment: what is left, without the slashes at its end. */
  method RestValue(t: string) returns (v: string)
    ensures v == TrimSlashes(t)
  {
    var n := |t|;
    assert t[..n] == t;
    while n > 0 && t[n - 1] == '/'
      invariant n <= |t| && TrimSlashes(t) == TrimSlashes(t[..n])
    {
      assert t[..n][..n - 1] == t[..n - 1];
      n := n - 1;
    }
    v := t[..n];
  }

  /** Captures found so far, then those of the rest. */
  function After(done: seq<Param>, more: Option<seq<Param>>): Option<seq<Param>> {
    if more.Some? then Some(done + more.value) else None
  }

  lemma {:induction false} AfterFound(done: seq<Param>, p: Param, more: Option<seq<Param>>)
    ensures After(done, Found(p, more)) == After(done + [p], more) && After([], more) == more
  {
    if more.Some? { assert done + ([p] + more.value) == done + [p] + more.value && [] + more.value == more.value; }
  }

  /** What is left to match from two positions. */
  ghost function Left(pattern: string, path: string): Option<seq<Param>> {
    SegmentsNonEmpty(pattern);
    Captures(Segments(pattern), EndsInSlash(pattern), Tails(path))
  }

  /** One turn of the matching loop, after both sides have passed their slashes. */
  lemma {:induction false} LeftStep(pattern: string, path: string)
    ensures var u, v := SkipSlashes(pattern), SkipSlashes(path);
            && (u == "" && v == "" ==> Left(pattern, path) == Some([]))
            && ((u == "") != (v == "") ==> Left(pattern, path) == None)
            && (u != "" && v != "" ==>
                  var p, s, more := Segment(u), Segment(v), Left(u[IndexOf(u, '/')..], v[IndexOf(v, '/')..]);
                  && p != "" && s != ""
                  && Left(pattern, path) ==
                     match ItemOf(p)
                     case Rest(name) => if u[IndexOf(u, '/')..] == "" then Some([Param(name, TrimSlashes(v))]) else None
                     case Capture(name) => Found(Param(name, s), more)
                     case Any => more
                     case Literal(text) => if text == s then more else None
                     case Never => None)
  {
    hide ItemOf, IndexOf, TrimSlashes;
    var u, v := SkipSlashes(pattern), SkipSlashes(path);
    if u != "" && v != "" {
      FirstSegment(u);
      FirstSegment(v);
      var m, n := IndexOf(u, '/'), IndexOf(v, '/');
      TrimKeepsSegment(v);
      SegmentsNonEmpty(u[m..]);
      assert Segments(pattern)[1..] == Segments(u[m..]) && Tails(path)[1..] == Tails(v[n..]);
      RestIsFinal(pattern);
      ClosedTail(pattern, m);
      if u[m..] == "" { EmptyClosed(pattern, v[n..]); }
    }
  }

  lemma {:induction false} EmptyClosed(pattern: string, path: string)
    ensures Captures([], EndsInSlash(pattern), Tails(path)) == Captures([], false, Tails(path))
  {
  }

  lemma {:induction false} SkipKeepsEnd(t: string)
    ensures SkipSlashes(t) != "" ==> EndsInSlash(SkipSlashes(t)) == EndsInSlash(t)
    ensures SkipSlashes(t) == "" && t != "" ==> EndsInSlash(t)
  {
    if t != "" && t[0] == '/' { SkipKeepsEnd(t[1..]); }
  }

  lemma {:induction false} ClosedTail(pattern: string, m: nat)
    requires var u := SkipSlashes(pattern); u != "" && m == IndexOf(u, '/')
    ensures var u := SkipSlashes(pattern); u[m..] != "" ==> EndsInSlash(u[m..]) == EndsInSlash(pattern)
    ensures var u := SkipSlashes(pattern); u[m..] == "" ==> !EndsInSlash(pattern)
  {
    hide SkipSlashes;
    SkipKeepsEnd(pattern);
    var u := SkipSlashes(pattern);
    if m == |u| {
      assert u[..m] == u;
      assert u[|u| - 1] in u[..m];
    }
  }

  /** Nothing follows a segment exactly when it is the last and no slash ends the pattern. */
  lemma {:induction false} RestIsFinal(pattern: string)
    requires SkipSlashes(pattern) != ""
    ensures var u := SkipSlashes(pattern);
            u[IndexOf(u, '/')..] == "" <==> |Segments(pattern)| == 1 && !EndsInSlash(pattern)
  {
    hide IndexOf, SkipSlashes;
    var u := SkipSlashes(pattern);
    var m := IndexOf(u, '/');
    ClosedTail(pattern, m);
    SkipKeepsEnd(u[m..]);
    assert SkipSlashes("") == "" by { SkipMore(""); }
  }

  class OrbitRequest {
    const verb: string
    const path: string
    const paramNames: array<string>
    const paramValues: array<string>
    var paramCount: nat

    constructor (verb: string, path: string)
      ensures this.verb == verb && this.path == path && paramCount == 0
      ensures paramNames.Length == MAX_PATH_PARAMS == paramValues.Length && paramNames != paramValues
    {
      this.verb, this.path := verb, path;
      paramNames, paramValues := new string[MAX_PATH_PARAMS], new string[MAX_PATH_PARAMS];
      paramCount := 0;
    }

    /** The slots hold the first captures, as many as there is room for. */
    predicate Holds(caps: seq<Param>)
      reads paramNames, paramValues
    {
      && paramNames.Length == MAX_PATH_PARAMS == paramValues.Length
      && forall i | 0 <= i < |caps| && i < MAX_PATH_PARAMS ::
           paramNames[i] == caps[i].name && paramValues[i] == caps[i].value
    }

    /** Stores capture number `n` if it has a slot. */
    method Store(n: nat, name: string, value: string, ghost done: seq<Param>)
      requires n == |done| && Holds(done) && paramNames != paramValues
      modifies paramNames, paramValues
      ensures Holds(done + [Param(name, value)])
    {
      if n < MAX_PATH_PARAMS {
        paramNames[n], paramValues[n] := name, value;
      }
    }

    /** orbit_route_match. The count is that of all captures, also of those without a slot. */
    method RouteMatch(verb: string, pattern: string) returns (r: bool)
      requires Holds([]) && paramNames != paramValues
      modifies this, paramNames, paramValues
      ensures var caps := if verb == this.verb then Route(pattern, path) else None;
              r == caps.Some? && paramCount == (if r then |caps.value| else 0) && (r ==> Holds(caps.value))
    {
      hide Left, ItemOf, Captures, Segments, Tails, PathOnly, Segment, TrimSlashes, IndexOf, SkipSlashes;
      paramCount := 0;
      if verb != this.verb { return false; }
      var cut := PathEndOf(path);
      var text := path[..cut];
      assert text == PathOnly(path);
      ghost var answer := Route(pattern, path);
      var pp: nat, qp: nat, n: nat := 0, 0, 0;
      ghost var done: seq<Param> := [];
      assert pattern[0..] == pattern && text[0..] == text;
      assert answer == Left(pattern, text) by { RouteIsLeft(pattern, path); }
      AfterFound([], Param("", ""), answer);
      while true
        invariant pp <= |pattern| && qp <= |text| && n == |done| && Holds(done) && paramCount == 0
        invariant answer == After(done, Left(pattern[pp..], text[qp..]))
        decreases |pattern| - pp
      {
        LeftStep(pattern[pp..], text[qp..]);
        var p := PassSlashes(pattern, pp);
        var q := PassSlashes(text, qp);
        if p == |pattern| && q == |text| {
          assert done + [] == done;
          paramCount := n;
          return true;
        }
        if p == |pattern| || q == |text| { return false; }
        var pe := SegmentEndAt(pattern, p);
        var qe := SegmentEndAt(text, q);
        SegmentAt(pattern, p, pe);
        SegmentAt(text, q, qe);
        var item := ItemOf(pattern[p..pe]);
        match item {
          case Rest(name) =>
            if pe < |pattern| { return false; }
            var value := RestValue(text[q..]);
            Store(n, name, value, done);
            paramCount := n + 1;
            return true;
          case Capture(name) =>
            Store(n, name, text[q..qe], done);
            AfterFound(done, Param(name, text[q..qe]), Left(pattern[pe..], text[qe..]));
            done := done + [Param(name, text[q..qe])];
            n := n + 1;
          case Any =>
          case Literal(word) =>
            if word != text[q..qe] { return false; }
          case Never =>
            return false;
        }
        pp, qp := pe, qe;
      }
    }
  }

  lemma {:induction false} RouteIsLeft(pattern: string, path: string)
    ensures Route(pattern, path) == Left(pattern, PathOnly(path))
  {
  }

  lemma {:induction false} SegmentAt(t: string, p: nat, e: nat)
    requires p < |t| && e == p + IndexOf(t[p..], '/')
    ensures Segment(t[p..]) == t[p..e] && t[p..][IndexOf(t[p..], '/')..] == t[e..] && (t[p] != '/' ==> e > p)
    ensures t[e..] == "" <==> e == |t|
  {
    assert t[p..][..e - p] == t[p..e];
  }
}
