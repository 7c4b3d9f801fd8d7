/** runtime/http.c: what a route says, on its text, and what it captures. */
module RouteRules {
  import opened Basics
  import opened Texts
  import opened Routes

  // ----- patterns as they are written -----

  /** One segment of a pattern: `:name`, `{name}`, `*`, a word, or a colon or braces without a name. */
  datatype Part = Named(name: string) | Braced(name: string) | Star | Word(word: string) | Colon | Braces

  predicate Plain(s: string) {
    s != "" && '/' !in s
  }

  /** A name that does not end in three dots with a character before them. */
  predicate ShortName(n: string) {
    |n| > 3 ==> n[|n| - 3..] != "..."
  }

  /** The part is what its text says; a word is any text that is none of the others. */
  predicate PartOk(p: Part) {
    match p
    case Named(n) => Plain(n) && ShortName(n)
    case Braced(n) => Plain(n)
    case Word(w) => Plain(w) && w[0] != ':' && w != "*" && !(|w| > 1 && w[0] == '{' && w[|w| - 1] == '}')
    case _ => true
  }

  function PartText(p: Part): string {
    match p
    case Named(n) => ":" + n
    case Braced(n) => "{" + n + "}"
    case Star => "*"
    case Word(w) => w
    case Colon => ":"
    case Braces => "{}"
  }

  function PatternText(parts: seq<Part>): string {
    if parts == [] then "" else "/" + PartText(parts[0]) + PatternText(parts[1..])
  }

  /** The part that takes the rest of a path. */
  function RestText(name: string): string {
    "/:" + name + "..."
  }

  function PathText(segs: seq<string>): string {
    if segs == [] then "" else "/" + segs[0] + PathText(segs[1..])
  }

  predicate PathSegment(s: string) {
    Plain(s) && '?' !in s && '#' !in s
  }

  lemma {:induction false} ColonPart(n: string)
    requires Plain(":" + n)
    ensures var p := ":" + n;
            if n == "" then PartOk(Colon) && PartText(Colon) == p
            else if ShortName(n) then PartOk(Named(n)) && PartText(Named(n)) == p
            else Plain(n[..|n| - 3]) && p == ":" + n[..|n| - 3] + "..."
  {
    var p := ":" + n;
    assert n == p[1..];
    if !ShortName(n) { assert n == n[..|n| - 3] + "..."; }
  }

  lemma {:induction false} BracePart(n: string)
    requires Plain("{" + n + "}")
    ensures var p := "{" + n + "}";
            if n == "" then PartOk(Braces) && PartText(Braces) == p else PartOk(Braced(n)) && PartText(Braced(n)) == p
  {
    var p := "{" + n + "}";
    assert n == p[1..|p| - 1];
  }

  /** Every non-empty text between slashes is one of the parts, or takes the rest. */
  lemma {:induction false} EveryTextIsAPart(p: string)
    requires Plain(p)
    ensures (exists q: Part :: PartOk(q) && PartText(q) == p) || exists n: string :: Plain(n) && p == ":" + n + "..."
  {
    hide ShortName;
    if p[0] == ':' {
      var n := p[1..];
      assert p == ":" + n;
      ColonPart(n);
      if n == "" { assert PartOk(Colon); } else { assert ShortName(n) ==> PartOk(Named(n)); }
    } else if p == "*" {
      assert PartText(Star) == p;
    } else if |p| > 1 && p[0] == '{' && p[|p| - 1] == '}' {
      var n := p[1..|p| - 1];
      assert p == "{" + n + "}";
      BracePart(n);
      if n == "" { assert PartOk(Braces); } else { assert PartOk(Braced(n)); }
    } else {
      assert PartText(Word(p)) == p;
    }
  }

  // ----- what a pattern means -----

  /** What one part captures from one segment; None when it does not accept it. */
  function Caught(p: Part, s: string): Option<seq<Param>> {
    match p
    case Named(n) => Some([Param(n, s)])
    case Braced(n) => Some([Param(n, s)])
    case Star => Some([])
    case Word(w) => if w == s then Some([]) else None
    case _ => None
  }

  function Both(a: Option<seq<Param>>, b: Option<seq<Param>>): Option<seq<Param>> {
    if a.Some? && b.Some? then Some(a.value + b.value) else None
  }

  /** Part by part, with as many segments as parts. */
  function AllCaught(parts: seq<Part>, segs: seq<string>): Option<seq<Param>> {
    if parts == [] && segs == [] then Some([])
    else if parts == [] || segs == [] then None
    else Both(Caught(parts[0], segs[0]), AllCaught(parts[1..], segs[1..]))
  }

  /** What is left of a path behind its first `n` segments; `rest` is the last of them and all behind it. */
  function Behind(segs: seq<string>, rest: string): string {
    PathText(segs) + "/" + rest
  }

  // ----- the segments of a text -----

  lemma {:induction false} PartPlain(p: Part)
    requires PartOk(p)
    ensures Plain(PartText(p))
  {
  }

  /** The first segment of a text that starts with a slash. */
  lemma {:induction false} FirstCut(p: string, more: string)
    requires Plain(p) && (more == "" || more[0] == '/')
    ensures var u := SkipSlashes("/" + p + more);
            u == p + more && u != "" && IndexOf(u, '/') == |p| && Segment(u) == p && u[IndexOf(u, '/')..] == more
  {
    var t, u := "/" + p + more, p + more;
    assert t[1..] == u && t[0] == '/';
    assert u[0] == p[0] && p[0] in p;
    assert SkipSlashes(u) == u by { SkipMore(u); }
    SkipMore(t);
    assert u[..|p|] == p;
    IndexOfIs(u, '/', |p|);
  }

  /** One part of a pattern against one segment of a path, then the rest of both. */
  lemma {:induction false} PartStep(p: Part, more: string, s: string, left: string)
    requires PartOk(p) && Plain(s) && (more == "" || more[0] == '/') && (left == "" || left[0] == '/')
    ensures Left("/" + PartText(p) + more, "/" + s + left) == Both(Caught(p, s), Left(more, left))
  {
    hide Left, SkipSlashes, Segment, IndexOf, PartOk, ItemOf, TrimSlashes, PartText;
    var pattern, path := "/" + PartText(p) + more, "/" + s + left;
    PartPlain(p);
    FirstCut(PartText(p), more);
    FirstCut(s, left);
    LeftStep(pattern, path);
    ItemIs(p);
    var rest := Left(more, left);
    if rest.Some? { assert [] + rest.value == rest.value; }
  }

  /** What the matcher takes the text of a part for. */
  lemma {:induction false} ItemIs(p: Part)
    requires PartOk(p)
    ensures PartText(p) != ""
    ensures ItemOf(PartText(p)) ==
            match p
            case Named(n) => Capture(n)
            case Braced(n) => Capture(n)
            case Star => Any
            case Word(w) => Literal(w)
            case _ => Never
  {
    var t := PartText(p);
    match p
    case Named(n) =>
      assert t[1..] == n;
      assert |n| >= 3 ==> t[|t| - 3..] == n[|n| - 3..];
    case Braced(n) => assert t[1..|t| - 1] == n;
    case _ =>
  }

  lemma {:induction false} StartsWithSlash(parts: seq<Part>, segs: seq<string>)
    ensures PatternText(parts) == "" || PatternText(parts)[0] == '/'
    ensures PathText(segs) == "" || PathText(segs)[0] == '/'
  {
  }

  lemma {:induction false} NothingLeft(path: string)
    requires path == "" || (SkipSlashes(path) != "")
    ensures Left("", path) == (if path == "" then Some([]) else None)
    ensures path != "" ==> Left(path, "") == None
  {
    LeftStep("", path);
    LeftStep(path, "");
    assert SkipSlashes("") == "" by { SkipMore(""); }
  }

  lemma {:induction false} PathSkips(segs: seq<string>)
    requires segs != [] && Plain(segs[0])
    ensures PathText(segs) != "" && SkipSlashes(PathText(segs)) != ""
  {
    StartsWithSlash([], segs[1..]);
    FirstCut(segs[0], PathText(segs[1..]));
  }

  lemma {:induction false} PatternSkips(parts: seq<Part>)
    requires parts != [] && PartOk(parts[0])
    ensures PatternText(parts) != "" && SkipSlashes(PatternText(parts)) != ""
  {
    StartsWithSlash(parts[1..], []);
    PartPlain(parts[0]);
    FirstCut(PartText(parts[0]), PatternText(parts[1..]));
  }

  lemma {:induction false} LeftMeaning(parts: seq<Part>, segs: seq<string>)
    requires (forall p | p in parts :: PartOk(p)) && (forall s | s in segs :: Plain(s))
    ensures Left(PatternText(parts), PathText(segs)) == AllCaught(parts, segs)
    decreases |parts|
  {
    hide Left, PartOk, Plain, PartText, Caught;
    if parts == [] {
      if segs != [] { assert segs[0] in segs; PathSkips(segs); }
      NothingLeft(PathText(segs));
    } else if segs == [] {
      assert parts[0] in parts;
      PatternSkips(parts);
      NothingLeft(PatternText(parts));
    } else {
      assert parts[0] in parts && segs[0] in segs;
      StartsWithSlash(parts[1..], segs[1..]);
      PartStep(parts[0], PatternText(parts[1..]), segs[0], PathText(segs[1..]));
      LeftMeaning(parts[1..], segs[1..]);
    }
  }

  // ----- whole routes -----

  lemma {:induction false} PathClean(segs: seq<string>)
    requires forall s | s in segs :: PathSegment(s)
    ensures '?' !in PathText(segs) && '#' !in PathText(segs) && forall s | s in segs :: Plain(s)
  {
    if segs != [] {
      assert segs[0] in segs && forall s | s in segs[1..] :: s in segs;
      PathClean(segs[1..]);
    }
  }

  /** A route without a rest part: it matches a path exactly when part by part accepts segment by segment, and captures, in
      order, what each `:name` and each `{name}` stands for. */
  lemma {:induction false} RouteMeaning(parts: seq<Part>, segs: seq<string>)
    requires (forall p | p in parts :: PartOk(p)) && (forall s | s in segs :: PathSegment(s))
    ensures Route(PatternText(parts), PathText(segs)) == AllCaught(parts, segs)
  {
    hide Left, Route, PartOk, Plain, PathSegment;
    PathClean(segs);
    PathWhole(PathText(segs));
    RouteIsLeft(PatternText(parts), PathText(segs));
    LeftMeaning(parts, segs);
  }

  /** Text that a rest part takes: it starts with a segment and does not end in a slash. */
  predicate RestValue(v: string) {
    v != "" && v[0] != '/' && v[|v| - 1] != '/' && '?' !in v && '#' !in v
  }

  predicate Slashes(s: string) {
    forall i | 0 <= i < |s| :: s[i] == '/'
  }

  lemma {:induction false} TrimEnd(v: string, slashes: string)
    requires v != "" && v[|v| - 1] != '/' && Slashes(slashes)
    ensures TrimSlashes(v + slashes) == v
    decreases |slashes|
  {
    var t := v + slashes;
    if slashes == "" {
      assert t == v;
    } else {
      assert t[..|t| - 1] == v + slashes[..|slashes| - 1];
      TrimEnd(v, slashes[..|slashes| - 1]);
    }
  }

  lemma {:induction false} RestStep(name: string, v: string, slashes: string)
    requires Plain(name) && RestValue(v) && Slashes(slashes)
    ensures Left(RestText(name), "/" + v + slashes) == Some([Param(name, v)])
  {
    hide Left, IndexOf, TrimSlashes, Segment;
    var p, path := ":" + name + "...", "/" + v + slashes;
    assert RestText(name) == "/" + p + "";
    assert p[|p| - 3..] == "..." && p[1..|p| - 3] == name;
    FirstCut(p, "");
    LeftStep(RestText(name), path);
    assert path[1..] == v + slashes && (v + slashes)[0] == v[0];
    SkipMore(path);
    SkipMore(v + slashes);
    TrimEnd(v, slashes);
  }

  lemma {:induction false} LeftRest(parts: seq<Part>, name: string, segs: seq<string>, v: string, slashes: string)
    requires (forall p | p in parts :: PartOk(p)) && (forall s | s in segs :: Plain(s)) && |parts| == |segs|
    requires Plain(name) && RestValue(v) && Slashes(slashes)
    ensures Left(PatternText(parts) + RestText(name), Behind(segs, v) + slashes) ==
            Both(AllCaught(parts, segs), Some([Param(name, v)]))
    decreases |parts|
  {
    hide Left, PartOk, Plain, PartText, Caught, RestText;
    var pattern, path := PatternText(parts) + RestText(name), Behind(segs, v) + slashes;
    if parts == [] {
      assert pattern == RestText(name) && path == "/" + v + slashes;
      RestStep(name, v, slashes);
      assert [] + [Param(name, v)] == [Param(name, v)];
    } else {
      assert parts[0] in parts && segs[0] in segs;
      var more, left := PatternText(parts[1..]) + RestText(name), Behind(segs[1..], v) + slashes;
      assert pattern == "/" + PartText(parts[0]) + more && path == "/" + segs[0] + left;
      StartsWithSlash(parts[1..], segs[1..]);
      assert RestText(name)[0] == '/' by { RestStarts(name); }
      PartStep(parts[0], more, segs[0], left);
      LeftRest(parts[1..], name, segs[1..], v, slashes);
      BothAssoc(Caught(parts[0], segs[0]), AllCaught(parts[1..], segs[1..]), Some([Param(name, v)]));
    }
  }

  lemma {:induction false} RestStarts(name: string)
    ensures RestText(name) != "" && RestText(name)[0] == '/'
  {
  }

  lemma {:induction false} BothAssoc(a: Option<seq<Param>>, b: Option<seq<Param>>, c: Option<seq<Param>>)
    ensures Both(a, Both(b, c)) == Both(Both(a, b), c)
  {
    if a.Some? && b.Some? && c.Some? { assert a.value + (b.value + c.value) == a.value + b.value + c.value; }
  }

  /** A route that ends in `:name...`: the parts before it take their segments, and it takes all that follows them, slashes
      inside it included and those at its end not. */
  lemma {:induction false} RestMeaning(parts: seq<Part>, name: string, segs: seq<string>, v: string, slashes: string)
    requires (forall p | p in parts :: PartOk(p)) && (forall s | s in segs :: PathSegment(s)) && |parts| == |segs|
    requires Plain(name) && RestValue(v) && Slashes(slashes)
    ensures Route(PatternText(parts) + RestText(name), Behind(segs, v) + slashes) ==
            Both(AllCaught(parts, segs), Some([Param(name, v)]))
  {
    hide Left, Route, PartOk, Plain, PathSegment;
    PathClean(segs);
    var path := Behind(segs, v) + slashes;
    PathWhole(path);
    RouteIsLeft(PatternText(parts) + RestText(name), path);
    LeftRest(parts, name, segs, v, slashes);
  }

  /** A rest part needs at least one segment for itself, and nothing may follow it in the pattern, not even a slash. */
  lemma {:induction false} RestRefuses(parts: seq<Part>, name: string, behind: string, segs: seq<string>)
    requires (forall p | p in parts :: PartOk(p)) && (forall s | s in segs :: PathSegment(s)) && Plain(name)
    requires if behind == "" then |segs| <= |parts| else behind[0] == '/'
    ensures Route(PatternText(parts) + RestText(name) + behind, PathText(segs)) == None
  {
    hide Left, Route, PartOk, Plain, PathSegment, RestText;
    PathClean(segs);
    PathWhole(PathText(segs));
    RouteIsLeft(PatternText(parts) + RestText(name) + behind, PathText(segs));
    RestFails(parts, name, behind, segs);
  }

  lemma {:induction false} RestFails(parts: seq<Part>, name: string, behind: string, segs: seq<string>)
    requires (forall p | p in parts :: PartOk(p)) && (forall s | s in segs :: Plain(s)) && Plain(name)
    requires if behind == "" then |segs| <= |parts| else behind[0] == '/'
    ensures Left(PatternText(parts) + RestText(name) + behind, PathText(segs)) == None
    decreases |parts|
  {
    hide Left, PartOk, Plain, PartText, Caught, RestText;
    var pattern, path := PatternText(parts) + RestText(name) + behind, PathText(segs);
    if parts == [] {
      assert pattern == RestText(name) + behind;
      if segs != [] { assert segs[0] in segs; }
      LoneRestFails(name, behind, segs);
    } else {
      assert parts[0] in parts;
      var more := PatternText(parts[1..]) + RestText(name) + behind;
      StartsWithSlash(parts[1..], if segs == [] then [] else segs[1..]);
      RestStarts(name);
      PartPlain(parts[0]);
      assert pattern == "/" + PartText(parts[0]) + more;
      if segs == [] {
        FirstCut(PartText(parts[0]), more);
        NothingLeft(pattern);
      } else {
        assert segs[0] in segs;
        PartStep(parts[0], more, segs[0], PathText(segs[1..]));
        RestFails(parts[1..], name, behind, segs[1..]);
      }
    }
  }

  lemma {:induction false} LoneRestFails(name: string, behind: string, segs: seq<string>)
    requires Plain(name) && (segs != [] ==> Plain(segs[0]))
    requires if behind == "" then segs == [] else behind[0] == '/'
    ensures Left(RestText(name) + behind, PathText(segs)) == None
  {
    hide Left, IndexOf, TrimSlashes, Segment, SkipSlashes;
    var p := ":" + name + "...";
    assert RestText(name) + behind == "/" + p + behind;
    assert p[|p| - 3..] == "..." && p[1..|p| - 3] == name && ItemOf(p).Rest?;
    FirstCut(p, behind);
    LeftStep(RestText(name) + behind, PathText(segs));
    if segs == [] { SkipMore(""); } else { PathSkips(segs); }
  }
}
