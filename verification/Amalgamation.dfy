/** scripts/amalgamate.py: textual inlining of project includes. */
module Amalgamation {
  /* A file is a sequence of lines. `Run` is what a C preprocessor does with the original tree: it follows an include
     in a live region and starts the included file with an empty stack of conditionals. `Expand` and `Inline` are the
     script: they replace every include line, live or not, without looking at the conditionals around it. `RunFlat`
     preprocesses their output, which has no includes left. */
  import opened Basics

  type Path = string
  type Macros = map<string, string>

  /** A controlling expression of #if, #ifdef, #ifndef or #elif. */
  datatype Cond = Defined(m: string) | Is(m: string, body: string)
                | Not(c: Cond) | And(l: Cond, r: Cond) | Or(l: Cond, r: Cond)

  datatype Line =
    | Text(s: string)
    | Remark(s: string)
    | Define(m: string, body: string)
    | Undef(m: string)
    | Include(name: string)
    | If(c: Cond)
    | Elif(c: Cond)
    | Else
    | Endif

  /** One open conditional: is its surroundings live, is its current branch live, was a branch taken. */
  datatype Frame = Frame(outer: bool, live: bool, taken: bool)

  /** A line of output with the macros that may be expanded in it. */
  datatype Emitted = Emitted(s: string, table: Macros)

  datatype State = State(macros: Macros, stack: seq<Frame>, out: seq<Emitted>)

  /** The files a build can reach, and what each include line of each file resolves to. */
  datatype Tree = Tree(files: map<Path, seq<Line>>, resolve: map<(Path, string), Path>, guards: map<Path, string>)

  // ----- guard names (guard_for) -----

  const SEED_PREFIX := "ORBIT_SEED_FILE_"

  function IdentChar(c: char): char {
    if 'a' <= c <= 'z' then ((c as int) - 32) as char
    else if 'A' <= c <= 'Z' || '0' <= c <= '9' then c
    else '_'
  }

  function IdentChars(s: string): string {
    if s == "" then "" else [IdentChar(s[0])] + IdentChars(s[1..])
  }

  function StripLeft(s: string): string {
    if s != "" && s[0] == '_' then StripLeft(s[1..]) else s
  }

  function StripRight(s: string): string {
    if s != "" && s[|s| - 1] == '_' then StripRight(s[..|s| - 1]) else s
  }

  function GuardFor(rel: Path): string {
    SEED_PREFIX + StripRight(StripLeft(IdentChars(rel)))
  }

  predicate IsSeed(m: string) {
    SEED_PREFIX <= m
  }

  /** The macro table without the guards the script adds; no source line can name one of those. */
  function Visible(macros: Macros): Macros {
    map m | m in macros && !IsSeed(m) :: macros[m]
  }

  // ----- the preprocessor -----

  predicate Eval(c: Cond, macros: Macros) {
    match c
    case Defined(m) => m in macros
    case Is(m, body) => m in macros && macros[m] == body
    case Not(d) => !Eval(d, macros)
    case And(l, r) => Eval(l, macros) && Eval(r, macros)
    case Or(l, r) => Eval(l, macros) || Eval(r, macros)
  }

  predicate LiveStack(stack: seq<Frame>) {
    stack == [] || stack[|stack| - 1].live
  }

  /** The effect of one line other than an include. */
  function Step(l: Line, st: State): State {
    var live := LiveStack(st.stack);
    match l
    case Text(s) => if live then st.(out := st.out + [Emitted(s, Visible(st.macros))]) else st
    case Remark(_) => st
    case Define(m, body) => if live then st.(macros := st.macros[m := body]) else st
    case Undef(m) => if live then st.(macros := st.macros - {m}) else st
    case Include(_) => st
    case If(c) =>
      var yes := live && Eval(c, st.macros);
      st.(stack := st.stack + [Frame(live, yes, yes)])
    case Elif(c) => if st.stack == [] then st else Branch(st, Eval(c, st.macros))
    case Else => if st.stack == [] then st else Branch(st, true)
    case Endif => if st.stack == [] then st else st.(stack := st.stack[..|st.stack| - 1])
  }

  function Branch(st: State, holds: bool): State
    requires st.stack != []
  {
    var n := |st.stack| - 1;
    var f := st.stack[n];
    var yes := f.outer && !f.taken && holds;
    st.(stack := st.stack[n := Frame(f.outer, yes, f.taken || yes)])
  }

  function RunFlat(lines: seq<Line>, st: State): State {
    if lines == [] then st else RunFlat(lines[1..], Step(lines[0], st))
  }

  /** Preprocess `lines` of file `from`.  None: an include that cannot be resolved, a file whose
      conditionals do not close, or nesting deeper than `fuel`. */
  function Run(t: Tree, from: Path, lines: seq<Line>, st: State, fuel: nat): Option<State>
    decreases fuel, |lines|
  {
    if lines == [] then Some(st)
    else if lines[0].Include? && LiveStack(st.stack) then
      var key := (from, lines[0].name);
      if fuel == 0 || key !in t.resolve || t.resolve[key] !in t.files then None
      else
        var f := t.resolve[key];
        var r := Run(t, f, t.files[f], st.(stack := []), fuel - 1);
        if r.None? || r.value.stack != [] then None
        else Run(t, from, lines[1..], r.value.(stack := st.stack), fuel)
    else Run(t, from, lines[1..], Step(lines[0], st), fuel)
  }

  // ----- the script -----

  /** `inline`: one file inside its own seed guard. */
  function Inline(t: Tree, f: Path, active: set<Path>): Option<seq<Line>>
    requires f in t.files && f !in active
    decreases |t.files.Keys - active|, 0
  {
    assert t.files.Keys - (active + {f}) == (t.files.Keys - active) - {f};
    var content := Expand(t, f, t.files[f], active + {f});
    if content.None? then None else Some(Wrap(f, content.value))
  }

  function Wrap(f: Path, content: seq<Line>): seq<Line> {
    [Remark("BEGIN SEED FILE: " + f), If(Not(Defined(GuardFor(f)))), Define(GuardFor(f), "")]
    + content + [Endif, Remark("END SEED FILE: " + f)]
  }

  /** The line substitution with `include` as its callback. */
  function Expand(t: Tree, from: Path, lines: seq<Line>, active: set<Path>): Option<seq<Line>>
    decreases |t.files.Keys - active|, |lines|
  {
    if lines == [] then Some([])
    else
      var rest := Expand(t, from, lines[1..], active);
      if !lines[0].Include? then
        if rest.None? then None else Some([lines[0]] + rest.value)
      else
        var key := (from, lines[0].name);
        if key !in t.resolve || t.resolve[key] !in t.files then None
        else
          var f := t.resolve[key];
          var body := if f in active then Some([]) else Inline(t, f, active);
          if body.None? || rest.None? then None
          else Some([Remark(lines[0].name)] + body.value + rest.value)
  }

  function Amalgamate(t: Tree, entry: Path, main: seq<Line>): Option<seq<Line>> {
    Expand(t, entry, main, {})
  }

  // ----- what the source files look like -----

  /** Conditionals close, starting `depth` deep and ending at depth 0. */
  predicate Balanced(lines: seq<Line>, depth: nat) {
    if lines == [] then depth == 0
    else match lines[0]
      case If(_) => Balanced(lines[1..], depth + 1)
      case Elif(_) => depth > 0 && Balanced(lines[1..], depth)
      case Else => depth > 0 && Balanced(lines[1..], depth)
      case Endif => depth > 0 && Balanced(lines[1..], depth - 1)
      case _ => Balanced(lines[1..], depth)
  }

  predicate CleanCond(c: Cond) {
    match c
    case Defined(m) => !IsSeed(m)
    case Is(m, _) => !IsSeed(m)
    case Not(d) => CleanCond(d)
    case And(l, r) => CleanCond(l) && CleanCond(r)
    case Or(l, r) => CleanCond(l) && CleanCond(r)
  }

  /** The line names no seed guard and does not undefine an include guard. */
  predicate CleanLine(t: Tree, l: Line) {
    match l
    case Define(m, _) => !IsSeed(m)
    case Undef(m) => !IsSeed(m) && m !in t.guards.Values
    case If(c) => CleanCond(c)
    case Elif(c) => CleanCond(c)
    case _ => true
  }

  predicate Clean(t: Tree, lines: seq<Line>) {
    forall i :: 0 <= i < |lines| ==> CleanLine(t, lines[i])
  }

  /** The classic include guard around a balanced body. */
  predicate Guarded(lines: seq<Line>, g: string) {
    && |lines| >= 3
    && lines[0] == If(Not(Defined(g)))
    && lines[1] == Define(g, "")
    && lines[|lines| - 1] == Endif
    && Balanced(lines[2..|lines| - 1], 0)
  }

  predicate FileOk(t: Tree, f: Path) {
    f in t.files && f in t.guards && !IsSeed(t.guards[f]) && Guarded(t.files[f], t.guards[f]) && Clean(t, t.files[f])
  }

  predicate WellFormed(t: Tree) {
    && t.guards.Keys == t.files.Keys
    && forall f {:trigger FileOk(t, f)} :: f in t.files ==> FileOk(t, f)
  }

  predicate DistinctNames(t: Tree) {
    forall f, g | f in t.files && g in t.files && GuardFor(f) == GuardFor(g) :: f == g
  }

  // ----- properties of flat preprocessing -----

  lemma {:induction false} RunFlatConcat(a: seq<Line>, b: seq<Line>, st: State)
    ensures RunFlat(a + b, st) == RunFlat(b, RunFlat(a, st))
  {
    if a == [] {
      assert a + b == b;
    } else {
      assert (a + b)[1..] == a[1..] + b;
      RunFlatConcat(a[1..], b, Step(a[0], st));
    }
  }

  lemma {:induction false} BalancedConcat(a: seq<Line>, b: seq<Line>, d: nat, e: nat)
    requires Balanced(a, d) && Balanced(b, e)
    ensures Balanced(a + b, d + e)
  {
    if a == [] {
      assert a + b == b;
    } else {
      assert (a + b)[1..] == a[1..] + b;
      match a[0]
      case If(_) => BalancedConcat(a[1..], b, d + 1, e);
      case Endif => BalancedConcat(a[1..], b, d - 1, e);
      case _ => BalancedConcat(a[1..], b, d, e);
    }
  }

  /** Text whose conditionals close does the same under any live stack of conditionals. */
  lemma {:induction false} RunFlatFrame(lines: seq<Line>, base: seq<Frame>, st: State)
    requires LiveStack(base) && Balanced(lines, |st.stack|)
    ensures RunFlat(lines, st).stack == []
    ensures RunFlat(lines, st.(stack := base + st.stack)) == RunFlat(lines, st).(stack := base)
  {
    if lines == [] {
      assert base + st.stack == base;
    } else {
      var st' := st.(stack := base + st.stack);
      var next := Step(lines[0], st);
      assert Step(lines[0], st').stack == base + next.stack by {
        if st.stack == [] { assert base + st.stack == base; }
      }
      assert Step(lines[0], st') == next.(stack := base + next.stack) by {
        if st.stack == [] { assert base + st.stack == base; }
      }
      RunFlatFrame(lines[1..], base, next);
    }
  }

  predicate DeadFrames(extra: seq<Frame>) {
    forall i :: 0 <= i < |extra| ==> !extra[i].outer && !extra[i].live
  }

  /** Text whose conditionals close has no effect in a dead region. */
  lemma {:induction false} RunFlatDead(lines: seq<Line>, base: seq<Frame>, extra: seq<Frame>, st: State)
    requires base != [] && !LiveStack(base) && DeadFrames(extra)
    requires st.stack == base + extra && Balanced(lines, |extra|)
    ensures RunFlat(lines, st) == st.(stack := base)
  {
    if lines == [] {
      assert base + extra == base;
    } else {
      var next := Step(lines[0], st);
      assert !LiveStack(st.stack);
      if lines[0].If? {
        var more := extra + [Frame(false, false, false)];
        assert next.stack == base + more;
        RunFlatDead(lines[1..], base, more, next);
      } else if lines[0].Endif? {
        var less := extra[..|extra| - 1];
        assert next.stack == base + less;
        RunFlatDead(lines[1..], base, less, next);
      } else if lines[0].Elif? || lines[0].Else? {
        var top := next.stack[|next.stack| - 1];
        var same := extra[|extra| - 1 := top];
        assert next.stack == base + same;
        RunFlatDead(lines[1..], base, same, next);
      } else {
        RunFlatDead(lines[1..], base, extra, next);
      }
    }
  }

  /** Inlining keeps conditionals balanced. */
  lemma {:induction false} ExpandBalanced(t: Tree, from: Path, lines: seq<Line>, active: set<Path>, depth: nat)
    requires WellFormed(t) && Balanced(lines, depth)
    requires Expand(t, from, lines, active).Some?
    ensures Balanced(Expand(t, from, lines, active).value, depth)
    decreases |t.files.Keys - active|, |lines|
  {
    if lines != [] {
      var all := Expand(t, from, lines, active).value;
      var rest := Expand(t, from, lines[1..], active).value;
      if !lines[0].Include? {
        assert all[1..] == rest;
        var d := if lines[0].If? then depth + 1 else if lines[0].Endif? then depth - 1 else depth;
        ExpandBalanced(t, from, lines[1..], active, d);
      } else {
        ExpandBalanced(t, from, lines[1..], active, depth);
        var f := t.resolve[(from, lines[0].name)];
        var body := if f in active then [] else Inline(t, f, active).value;
        assert Balanced(body, 0) by {
          if f !in active { InlineBalanced(t, f, active); }
        }
        BalancedConcat(body, rest, 0, depth);
        assert all[1..] == body + rest;
      }
    }
  }

  lemma {:induction false} InlineBalanced(t: Tree, f: Path, active: set<Path>)
    requires WellFormed(t) && f in t.files && f !in active && Inline(t, f, active).Some?
    ensures Expand(t, f, t.files[f], active + {f}).Some?
    ensures Balanced(Expand(t, f, t.files[f], active + {f}).value, 0)
    ensures Balanced(Inline(t, f, active).value, 0)
    decreases |t.files.Keys - active|, 0
  {
    var content := Expand(t, f, t.files[f], active + {f});
    assert t.files.Keys - (active + {f}) == (t.files.Keys - active) - {f};
    assert content.Some? && Inline(t, f, active).value == Wrap(f, content.value);
    assert FileOk(t, f);
    GuardedBalanced(t.files[f], t.guards[f]);
    ExpandBalanced(t, f, t.files[f], active + {f}, 0);
    WrapBalanced(f, content.value);
  }

  lemma {:induction false} GuardedBalanced(lines: seq<Line>, g: string)
    requires Guarded(lines, g)
    ensures Balanced(lines, 0)
  {
    var body := lines[2..|lines| - 1];
    assert Balanced([Endif], 1);
    BalancedConcat(body, [Endif], 0, 1);
    assert lines[1..][1..] == body + [Endif];
  }

  lemma {:induction false} WrapBalanced(f: Path, content: seq<Line>)
    requires Balanced(content, 0)
    ensures Balanced(Wrap(f, content), 0)
  {
    var w := Wrap(f, content);
    var tail := [Endif, Remark("END SEED FILE: " + f)];
    assert Balanced(tail, 1) by { assert tail[1..][1..] == []; }
    BalancedConcat(content, tail, 0, 1);
    assert w[1..][1..][1..] == content + tail;
  }

  // ----- properties of preprocessing with includes -----

  lemma {:induction false} RunConcat(t: Tree, from: Path, a: seq<Line>, b: seq<Line>, st: State, fuel: nat)
    ensures Run(t, from, a, st, fuel).None? ==> Run(t, from, a + b, st, fuel).None?
    ensures Run(t, from, a, st, fuel).Some? ==>
              Run(t, from, a + b, st, fuel) == Run(t, from, b, Run(t, from, a, st, fuel).value, fuel)
    decreases |a|
  {
    if a == [] {
      assert a + b == b;
    } else {
      assert (a + b)[1..] == a[1..] + b;
      if a[0].Include? && LiveStack(st.stack) {
        var key := (from, a[0].name);
        if fuel > 0 && key in t.resolve && t.resolve[key] in t.files {
          var f := t.resolve[key];
          var r := Run(t, f, t.files[f], st.(stack := []), fuel - 1);
          if r.Some? && r.value.stack == [] {
            RunConcat(t, from, a[1..], b, r.value.(stack := st.stack), fuel);
          }
        }
      } else {
        RunConcat(t, from, a[1..], b, Step(a[0], st), fuel);
      }
    }
  }

  /** A dead region follows no include and changes nothing. */
  lemma {:induction false} RunDead(t: Tree, from: Path, lines: seq<Line>, base: seq<Frame>, extra: seq<Frame>, st: State, fuel: nat)
    requires base != [] && !LiveStack(base) && DeadFrames(extra)
    requires st.stack == base + extra && Balanced(lines, |extra|)
    ensures Run(t, from, lines, st, fuel) == Some(st.(stack := base))
    decreases |lines|
  {
    if lines == [] {
      assert base + extra == base;
    } else {
      var next := Step(lines[0], st);
      assert !LiveStack(st.stack);
      if lines[0].If? {
        var more := extra + [Frame(false, false, false)];
        assert next.stack == base + more;
        RunDead(t, from, lines[1..], base, more, next, fuel);
      } else if lines[0].Endif? {
        var less := extra[..|extra| - 1];
        assert next.stack == base + less;
        RunDead(t, from, lines[1..], base, less, next, fuel);
      } else if lines[0].Elif? || lines[0].Else? {
        var top := next.stack[|next.stack| - 1];
        var same := extra[|extra| - 1 := top];
        assert next.stack == base + same;
        RunDead(t, from, lines[1..], base, same, next, fuel);
      } else {
        RunDead(t, from, lines[1..], base, extra, next, fuel);
      }
    }
  }

  lemma {:induction false} StepGuard(g: string, st: State)
    requires LiveStack(st.stack)
    ensures Step(If(Not(Defined(g))), st) == st.(stack := st.stack + [Frame(true, g !in st.macros, g !in st.macros)])
  {
    assert Eval(Not(Defined(g)), st.macros) == !Eval(Defined(g), st.macros);
  }

  /** A file whose include guard is already defined contributes nothing. */
  lemma {:induction false} RunGuardedAgain(t: Tree, f: Path, lines: seq<Line>, g: string, st: State, fuel: nat)
    requires Guarded(lines, g) && g in st.macros && st.stack == []
    ensures Run(t, f, lines, st, fuel) == Some(st)
  {
    var dead := [Frame(true, false, false)];
    var inside := [lines[1]] + lines[2..|lines| - 1];
    assert Balanced(inside, 0) by { assert inside[1..] == lines[2..|lines| - 1]; }
    assert lines[1..] == inside + [Endif];
    var st1 := st.(stack := dead);
    assert st.stack + dead == dead;
    StepGuard(g, st);
    assert dead + [] == dead;
    RunDead(t, f, inside, dead, [], st1, fuel);
    RunConcat(t, f, inside, [Endif], st1, fuel);
    assert Run(t, f, [Endif], st1, fuel) == Run(t, f, [], Step(Endif, st1), fuel) by { assert [Endif][1..] == []; }
    assert Step(Endif, st1) == st;
  }

  /** A conditional whose condition fails hides everything up to its own end. */
  lemma {:induction false} RunFlatSkip(c: Cond, inside: seq<Line>, st: State)
    requires !Eval(c, st.macros) && st.stack == [] && Balanced(inside, 0)
    ensures RunFlat([If(c)] + inside + [Endif], st) == st
  {
    var all := [If(c)] + inside + [Endif];
    var dead := [Frame(true, false, false)];
    var st1 := st.(stack := dead);
    assert all[1..] == inside + [Endif] && Step(all[0], st) == st1;
    assert dead + [] == dead;
    RunFlatDead(inside, dead, [], st1);
    RunFlatConcat(inside, [Endif], st1);
    assert RunFlat([Endif], st1) == RunFlat([], Step(Endif, st1)) by { assert [Endif][1..] == []; }
    assert Step(Endif, st1) == st;
  }

  /** The wrapper lets through exactly the first copy of a file. */
  lemma {:induction false} RunFlatWrap(f: Path, content: seq<Line>, st: State)
    requires st.stack == [] && Balanced(content, 0)
    ensures GuardFor(f) in st.macros ==> RunFlat(Wrap(f, content), st) == st
    ensures GuardFor(f) !in st.macros ==>
              RunFlat(Wrap(f, content), st) == RunFlat(content, st.(macros := st.macros[GuardFor(f) := ""]))
  {
    var g := GuardFor(f);
    var inside := [Define(g, "")] + content;
    var cond := Not(Defined(g));
    var core := [If(cond)] + inside + [Endif];
    var end := [Remark("END SEED FILE: " + f)];
    assert Wrap(f, content)[1..] == core + end;
    RunFlatConcat(core, end, st);
    assert RunFlat(core + end, st) == RunFlat(core, st) by { assert end[1..] == []; }
    if g in st.macros {
      assert Balanced(inside, 0) by { assert inside[1..] == content; }
      RunFlatSkip(cond, inside, st);
    } else {
      var open := [Frame(true, true, true)];
      var defined := st.(macros := st.macros[g := ""]);
      var st2 := defined.(stack := open);
      assert core[1..][1..] == content + [Endif];
      assert st.stack + open == open;
      StepGuard(g, st);
      assert Step(core[1], Step(core[0], st)) == st2;
      assert open + [] == open;
      RunFlatFrame(content, open, defined);
      RunFlatConcat(content, [Endif], st2);
      var r := RunFlat(content, defined);
      var lifted := r.(stack := open);
      assert RunFlat([Endif], lifted) == RunFlat([], Step(Endif, lifted)) by { assert [Endif][1..] == []; }
      assert Step(Endif, lifted) == r;
    }
  }

  // ----- the simulation -----

  /** Original and inlined runs agree on everything but the seed guards, and a seed guard is set
      only after the file's own include guard. */
  predicate Related(t: Tree, st: State, st': State) {
    && Visible(st.macros) == Visible(st'.macros)
    && st.stack == st'.stack && st.out == st'.out
    && SeedsImplyGuards(t, st.macros, st'.macros)
  }

  /** `r`, what the original run reached from `st`, is matched by `flat`, what the inlined run reached. */
  predicate InStep(t: Tree, st: State, r: Option<State>, flat: State) {
    r.Some? && GuardsKept(t, st.macros, r.value.macros) && Related(t, r.value, flat)
  }

  predicate SeedsImplyGuards(t: Tree, m: Macros, m': Macros) {
    forall f | f in t.files && f in t.guards && GuardFor(f) in m' :: t.guards[f] in m
  }

  predicate Opened(t: Tree, active: set<Path>, m: Macros) {
    forall f <- active :: f in t.guards && t.guards[f] in m
  }

  /** Include guards stay defined. */
  predicate GuardsKept(t: Tree, m: Macros, m': Macros) {
    forall g <- t.guards.Values :: g in m ==> g in m'
  }

  ghost function Undefined(t: Tree, m: Macros): set<string> {
    t.guards.Values - m.Keys
  }

  lemma {:induction false} VisibleAgree(a: Macros, b: Macros, m: string)
    requires Visible(a) == Visible(b) && !IsSeed(m)
    ensures m in a <==> m in b
    ensures m in a ==> a[m] == b[m]
  {
    assert m in a <==> m in Visible(a);
    assert m in b <==> m in Visible(b);
    if m in a { assert Visible(a)[m] == a[m] && Visible(b)[m] == b[m]; }
  }

  lemma {:induction false} EvalVisible(c: Cond, a: Macros, b: Macros)
    requires CleanCond(c) && Visible(a) == Visible(b)
    ensures Eval(c, a) == Eval(c, b)
  {
    match c
    case Defined(m) => VisibleAgree(a, b, m);
    case Is(m, _) => VisibleAgree(a, b, m);
    case Not(d) => EvalVisible(d, a, b);
    case And(l, r) => EvalVisible(l, a, b); EvalVisible(r, a, b);
    case Or(l, r) => EvalVisible(l, a, b); EvalVisible(r, a, b);
  }

  lemma {:induction false} StepRelated(t: Tree, l: Line, st: State, st': State)
    requires CleanLine(t, l) && !l.Include? && Related(t, st, st')
    ensures Related(t, Step(l, st), Step(l, st'))
    ensures GuardsKept(t, st.macros, Step(l, st).macros)
  {
    match l
    case If(c) => EvalVisible(c, st.macros, st'.macros);
    case Elif(c) => EvalVisible(c, st.macros, st'.macros);
    case Define(m, body) => VisibleDefine(st.macros, st'.macros, m, body);
    case Undef(m) => VisibleUndef(st.macros, st'.macros, m);
    case _ =>
  }

  lemma {:induction false} VisibleDefine(a: Macros, b: Macros, m: string, body: string)
    requires Visible(a) == Visible(b)
    ensures Visible(a[m := body]) == Visible(b[m := body])
  {
    forall x | !IsSeed(x)
      ensures x in a[m := body] <==> x in b[m := body]
      ensures x in a[m := body] ==> a[m := body][x] == b[m := body][x]
    {
      VisibleAgree(a, b, x);
    }
  }

  lemma {:induction false} VisibleUndef(a: Macros, b: Macros, m: string)
    requires Visible(a) == Visible(b)
    ensures Visible(a - {m}) == Visible(b - {m})
  {
    forall x | !IsSeed(x)
      ensures x in a - {m} <==> x in b - {m}
      ensures x in a - {m} ==> (a - {m})[x] == (b - {m})[x]
    {
      VisibleAgree(a, b, x);
    }
  }

  lemma {:induction false} VisibleSeed(a: Macros, m: string, body: string)
    requires IsSeed(m)
    ensures Visible(a[m := body]) == Visible(a)
  {
  }

  lemma {:induction false} ExpandConcat(t: Tree, from: Path, a: seq<Line>, b: seq<Line>, active: set<Path>)
    requires Expand(t, from, a + b, active).Some?
    ensures Expand(t, from, a, active).Some? && Expand(t, from, b, active).Some?
    ensures Expand(t, from, a + b, active).value == Expand(t, from, a, active).value + Expand(t, from, b, active).value
    decreases |a|
  {
    if a == [] {
      assert a + b == b;
    } else {
      assert (a + b)[1..] == a[1..] + b;
      ExpandConcat(t, from, a[1..], b, active);
    }
  }

  /** What inlining does to a guarded file: the include guard stays around the inlined body. */
  lemma {:induction false} ExpandGuarded(t: Tree, f: Path, lines: seq<Line>, g: string, active: set<Path>)
    requires WellFormed(t) && Guarded(lines, g) && Expand(t, f, lines, active).Some?
    ensures var inner := Expand(t, f, lines[2..|lines| - 1], active);
            var rest := Expand(t, f, lines[2..], active);
            && inner.Some? && Balanced(inner.value, 0)
            && rest.Some? && rest.value == inner.value + [Endif]
            && Expand(t, f, lines, active).value == [lines[0], lines[1]] + rest.value
    ensures Balanced(lines[2..], 1)
  {
    var body := lines[2..|lines| - 1];
    assert lines[1..][1..] == lines[2..];
    assert Expand(t, f, lines[1..], active).value == [lines[1]] + Expand(t, f, lines[2..], active).value;
    assert Balanced([Endif], 1);
    BalancedConcat(body, [Endif], 0, 1);
    assert lines[2..] == body + [Endif];
    ExpandConcat(t, f, body, [Endif], active);
    ExpandBalanced(t, f, body, active, 0);
    assert [Endif][1..] == [];
    assert Expand(t, f, [Endif][1..], active) == Some([]);
    assert Expand(t, f, [Endif], active).value == [Endif] + [];
  }

  /** The files whose include guard is still undefined bound how deep includes can nest. */
  lemma {:induction false} UndefinedShrinks(t: Tree, m: Macros, m': Macros)
    requires GuardsKept(t, m, m')
    ensures Undefined(t, m') <= Undefined(t, m)
    ensures |Undefined(t, m')| <= |Undefined(t, m)|
    ensures Undefined(t, m') != Undefined(t, m) ==> |Undefined(t, m')| < |Undefined(t, m)|
  {
    SubsetSize(Undefined(t, m'), Undefined(t, m));
    if Undefined(t, m') != Undefined(t, m) {
      var g :| g in Undefined(t, m) && g !in Undefined(t, m');
      SubsetSize(Undefined(t, m'), Undefined(t, m) - {g});
    }
  }

  /** A followed include of a file that was read before: both sides skip the body. */
  lemma {:induction false} IncludeSeen(t: Tree, f: Path, content: seq<Line>, rest: seq<Line>, st: State, st': State, fuel: nat)
    requires f in t.files && f in t.guards && Guarded(t.files[f], t.guards[f])
    requires DistinctNames(t) && st.stack == [] && Related(t, st, st')
    requires !IsSeed(t.guards[f]) && t.guards[f] in st.macros
    requires content == [If(Not(Defined(t.guards[f]))), Define(t.guards[f], "")] + rest
    requires Balanced(content, 0) && |rest| > 0 && rest[|rest| - 1] == Endif && Balanced(rest[..|rest| - 1], 0)
    ensures Run(t, f, t.files[f], st, fuel) == Some(st)
    ensures Related(t, st, RunFlat(Wrap(f, content), st'))
  {
    var g, seed := t.guards[f], GuardFor(f);
    RunGuardedAgain(t, f, t.files[f], g, st, fuel);
    RunFlatWrap(f, content, st');
    if seed !in st'.macros {
      var seeded := st'.(macros := st'.macros[seed := ""]);
      VisibleAgree(st.macros, st'.macros, g);
      FlatGuardedAgain(content, rest, g, seeded);
      VisibleSeed(st'.macros, seed, "");
      SeedOpened(t, f, st.macros, st'.macros);
    }
  }

  /** A followed include of a file for the first time: both sides reach its body. */
  lemma {:induction false} IncludeFresh(t: Tree, f: Path, content: seq<Line>, rest: seq<Line>, st: State, st': State, in1: State, in2: State, fuel: nat)
    requires f in t.files && f in t.guards && Guarded(t.files[f], t.guards[f])
    requires DistinctNames(t) && st.stack == [] && Related(t, st, st')
    requires !IsSeed(t.guards[f]) && t.guards[f] !in st.macros
    requires content == [If(Not(Defined(t.guards[f]))), Define(t.guards[f], "")] + rest
    requires Balanced(content, 0)
    requires in1 == State(st.macros[t.guards[f] := ""], [Frame(true, true, true)], st.out)
    requires in2 == State(st'.macros[GuardFor(f) := ""][t.guards[f] := ""], [Frame(true, true, true)], st'.out)
    ensures Run(t, f, t.files[f], st, fuel) == Run(t, f, t.files[f][2..], in1, fuel)
    ensures RunFlat(Wrap(f, content), st') == RunFlat(rest, in2)
    ensures Related(t, in1, in2)
    ensures GuardsKept(t, st.macros, in1.macros) && |Undefined(t, in1.macros)| < |Undefined(t, st.macros)|
  {
    var g, seed := t.guards[f], GuardFor(f);
    var seeded := st'.(macros := st'.macros[seed := ""]);
    assert seed !in st'.macros;
    RunFlatWrap(f, content, st');
    RunTwo(t, f, t.files[f], g, st, in1, fuel);
    VisibleAgree(st.macros, st'.macros, g);
    FlatTwo(content, content[0], content[1], rest, g, seeded, in2);
    VisibleSeed(st'.macros, seed, "");
    VisibleDefine(st.macros, seeded.macros, g, "");
    SeedOpened(t, f, in1.macros, st'.macros);
    assert g in Undefined(t, st.macros) && g !in Undefined(t, in1.macros);
    UndefinedShrinks(t, st.macros, in1.macros);
  }

  /** One followed include against its inlined text. */
  lemma {:induction false} IncludeSim(t: Tree, f: Path, active: set<Path>, st: State, st': State, fuel: nat)
    requires WellFormed(t) && DistinctNames(t)
    requires f in t.files && f !in active && Inline(t, f, active).Some?
    requires st.stack == [] && Related(t, st, st') && Opened(t, active, st.macros)
    requires |Undefined(t, st.macros)| <= fuel
    ensures InStep(t, st, Run(t, f, t.files[f], st, fuel), RunFlat(Inline(t, f, active).value, st'))
    ensures Run(t, f, t.files[f], st, fuel).value.stack == []
    decreases fuel, 1, 0
  {
    GuardedFile(t, f);
    hide Related, WellFormed, DistinctNames, Guarded, Wrap, GuardsKept, Opened, Clean, FileOk, Undefined;
    var lines, g := t.files[f], t.guards[f];
    InlineBalanced(t, f, active);
    var content := Expand(t, f, lines, active + {f}).value;
    ExpandGuarded(t, f, lines, g, active + {f});
    var rest := Expand(t, f, lines[2..], active + {f}).value;
    if g in st.macros {
      var inner := Expand(t, f, lines[2..|lines| - 1], active + {f}).value;
      assert rest[..|rest| - 1] == inner;
      IncludeSeen(t, f, content, rest, st, st', fuel);
      GuardsKeptRefl(t, st.macros);
    } else {
      var open := [Frame(true, true, true)];
      var in1 := State(st.macros[g := ""], open, st.out);
      var in2 := State(st'.macros[GuardFor(f) := ""][g := ""], open, st'.out);
      IncludeFresh(t, f, content, rest, st, st', in1, in2, fuel);
      OpenedMore(t, f, active, st.macros, in1.macros);
      Sim(t, f, lines[2..], active + {f}, in1, in2, fuel);
      GuardsKeptTrans(t, st.macros, in1.macros, Run(t, f, lines, st, fuel).value.macros);
    }
  }

  lemma {:induction false} SeedOpened(t: Tree, f: Path, m: Macros, m': Macros)
    requires f in t.files && f in t.guards && DistinctNames(t)
    requires t.guards[f] in m
    requires forall h | h in t.files && h in t.guards && GuardFor(h) in m' :: t.guards[h] in m
    ensures SeedsImplyGuards(t, m, m'[GuardFor(f) := ""])
  {
  }

  lemma {:induction false} RunTwo(t: Tree, f: Path, lines: seq<Line>, g: string, st: State, in1: State, fuel: nat)
    requires Guarded(lines, g) && st.stack == [] && g !in st.macros
    requires in1 == State(st.macros[g := ""], [Frame(true, true, true)], st.out)
    ensures Run(t, f, lines, st, fuel) == Run(t, f, lines[2..], in1, fuel)
  {
    assert lines[1..][1..] == lines[2..];
    assert st.stack + in1.stack == in1.stack;
    StepGuard(g, st);
    assert Step(lines[1], Step(lines[0], st)) == in1;
  }

  lemma {:induction false} FlatTwo(content: seq<Line>, a: Line, b: Line, rest: seq<Line>, g: string, st: State, in2: State)
    requires content == [a, b] + rest && a == If(Not(Defined(g))) && b == Define(g, "")
    requires st.stack == [] && g !in st.macros
    requires in2 == State(st.macros[g := ""], [Frame(true, true, true)], st.out)
    ensures RunFlat(content, st) == RunFlat(rest, in2)
  {
    assert content[1..][1..] == rest;
    assert st.stack + in2.stack == in2.stack;
    StepGuard(g, st);
    assert Step(b, Step(a, st)) == in2;
  }

  lemma {:induction false} FlatGuardedAgain(content: seq<Line>, rest: seq<Line>, g: string, st: State)
    requires content == [If(Not(Defined(g))), Define(g, "")] + rest
    requires Balanced(content, 0) && |rest| > 0 && rest[|rest| - 1] == Endif
    requires Balanced(rest[..|rest| - 1], 0)
    requires st.stack == [] && g in st.macros
    ensures RunFlat(content, st) == st
  {
    var inside := [Define(g, "")] + rest[..|rest| - 1];
    assert inside[1..] == rest[..|rest| - 1];
    assert content == [If(Not(Defined(g)))] + inside + [Endif];
    RunFlatSkip(Not(Defined(g)), inside, st);
  }

  /** The script and the preprocessor stay in step over the lines of one file. */
  lemma {:induction false} Sim(t: Tree, from: Path, lines: seq<Line>, active: set<Path>, st: State, st': State, fuel: nat)
    requires WellFormed(t) && DistinctNames(t)
    requires Clean(t, lines) && Balanced(lines, |st.stack|)
    requires Expand(t, from, lines, active).Some?
    requires Related(t, st, st') && Opened(t, active, st.macros)
    requires |Undefined(t, st.macros)| < fuel
    ensures InStep(t, st, Run(t, from, lines, st, fuel), RunFlat(Expand(t, from, lines, active).value, st'))
    ensures Run(t, from, lines, st, fuel).value.stack == []
    decreases fuel, 0, |lines|
  {
    if lines == [] {
    } else {
      hide Related, WellFormed, DistinctNames, Inline, Undefined, GuardsKept, Opened, Clean, CleanLine, Step;
      CleanTail(t, lines);
      var rest := Expand(t, from, lines[1..], active).value;
      if !lines[0].Include? {
        StepRelated(t, lines[0], st, st');
        StepBalanced(lines, st);
        var next := Step(lines[0], st);
        UndefinedShrinks(t, st.macros, next.macros);
        OpenedKept(t, active, st.macros, next.macros);
        assert ([lines[0]] + rest)[1..] == rest;
        Sim(t, from, lines[1..], active, next, Step(lines[0], st'), fuel);
        GuardsKeptTrans(t, st.macros, next.macros, Run(t, from, lines, st, fuel).value.macros);
      } else {
        var f := t.resolve[(from, lines[0].name)];
        var body := if f in active then [] else Inline(t, f, active).value;
        var next := IncludeLine(t, from, f, active, body, st, st', fuel);
        assert Run(t, from, lines, st, fuel) == Run(t, from, lines[1..], next, fuel);
        SpliceFlat(lines[0].name, body, rest, st');
        UndefinedShrinks(t, st.macros, next.macros);
        OpenedKept(t, active, st.macros, next.macros);
        Sim(t, from, lines[1..], active, next, RunFlat(body, st'), fuel);
        GuardsKeptTrans(t, st.macros, next.macros, Run(t, from, lines, st, fuel).value.macros);
      }
    }
  }

  lemma {:induction false} CleanTail(t: Tree, lines: seq<Line>)
    requires Clean(t, lines) && lines != []
    ensures CleanLine(t, lines[0]) && Clean(t, lines[1..])
  {
  }

  lemma {:induction false} StepBalanced(lines: seq<Line>, st: State)
    requires lines != [] && !lines[0].Include? && Balanced(lines, |st.stack|)
    ensures Balanced(lines[1..], |Step(lines[0], st).stack|)
  {
  }

  lemma {:induction false} SpliceFlat(name: string, body: seq<Line>, rest: seq<Line>, st: State)
    ensures RunFlat([Remark(name)] + body + rest, st) == RunFlat(rest, RunFlat(body, st))
  {
    assert ([Remark(name)] + body + rest)[1..] == body + rest;
    RunFlatConcat(body, rest, st);
  }

  lemma {:induction false} RelatedStack(t: Tree, st: State, st': State, stack: seq<Frame>)
    requires Related(t, st, st')
    ensures st.stack == st'.stack
    ensures Related(t, st.(stack := stack), st'.(stack := stack))
  {
  }

  /** One include line in a live region, under whatever conditionals are open. */
  lemma {:induction false} IncludeLive(t: Tree, f: Path, active: set<Path>, body: seq<Line>, st: State, st': State, fuel: nat)
    returns (next: State)
    requires WellFormed(t) && DistinctNames(t) && f in t.files && f !in active
    requires Inline(t, f, active) == Some(body) && LiveStack(st.stack)
    requires Related(t, st, st') && Opened(t, active, st.macros)
    requires |Undefined(t, st.macros)| < fuel
    ensures var sub := Run(t, f, t.files[f], st.(stack := []), fuel - 1);
            sub.Some? && sub.value.stack == [] && next == sub.value.(stack := st.stack)
    ensures GuardsKept(t, st.macros, next.macros) && Related(t, next, RunFlat(body, st'))
    decreases fuel, 0, 0, 0
  {
    hide Related, WellFormed, DistinctNames, GuardsKept, Wrap, Inline, Guarded, Opened, Undefined, Run, RunFlat, Balanced;
    RelatedStack(t, st, st', []);
    InlineBalanced(t, f, active);
    IncludeSim(t, f, active, st.(stack := []), st'.(stack := []), fuel - 1);
    RunFlatFrame(body, st.stack, st'.(stack := []));
    assert [] + st.stack == st.stack && st.stack + [] == st.stack;
    var sub := Run(t, f, t.files[f], st.(stack := []), fuel - 1).value;
    next := sub.(stack := st.stack);
    RelatedStack(t, sub, RunFlat(body, st'.(stack := [])), st.stack);
  }

  /** One include line, live or dead, against what replaced it. */
  lemma {:induction false} IncludeLine(t: Tree, from: Path, f: Path, active: set<Path>, body: seq<Line>, st: State, st': State, fuel: nat)
    returns (next: State)
    requires WellFormed(t) && DistinctNames(t) && f in t.files
    requires f !in active ==> Inline(t, f, active) == Some(body)
    requires f in active ==> body == []
    requires Related(t, st, st') && Opened(t, active, st.macros)
    requires |Undefined(t, st.macros)| < fuel
    ensures LiveStack(st.stack) ==>
              var sub := Run(t, f, t.files[f], st.(stack := []), fuel - 1);
              sub.Some? && sub.value.stack == [] && next == sub.value.(stack := st.stack)
    ensures !LiveStack(st.stack) ==> next == st
    ensures GuardsKept(t, st.macros, next.macros) && Related(t, next, RunFlat(body, st'))
    decreases fuel, 0, 0, 1
  {
    hide Related, WellFormed, DistinctNames, GuardsKept, Wrap, Inline, Guarded, Undefined, Balanced;
    next := st;
    RelatedStack(t, st, st', []);
    assert GuardsKept(t, st.macros, st.macros) by { GuardsKeptRefl(t, st.macros); }
    if f in active {
      if LiveStack(st.stack) {
        GuardedFile(t, f);
        RunGuardedAgain(t, f, t.files[f], t.guards[f], st.(stack := []), fuel - 1);
      }
    } else if LiveStack(st.stack) {
      next := IncludeLive(t, f, active, body, st, st', fuel);
    } else {
      InlineBalanced(t, f, active);
      assert st.stack + [] == st.stack;
      RunFlatDead(body, st.stack, [], st');
    }
  }

  lemma {:induction false} OpenedKept(t: Tree, active: set<Path>, m: Macros, m': Macros)
    requires Opened(t, active, m) && GuardsKept(t, m, m')
    ensures Opened(t, active, m')
  {
  }

  lemma {:induction false} OpenedMore(t: Tree, f: Path, active: set<Path>, m: Macros, m': Macros)
    requires Opened(t, active, m) && GuardsKept(t, m, m')
    requires f in t.guards && t.guards[f] in m'
    ensures Opened(t, active + {f}, m')
  {
  }

  lemma {:induction false} GuardsKeptTrans(t: Tree, a: Macros, b: Macros, c: Macros)
    requires GuardsKept(t, a, b) && GuardsKept(t, b, c)
    ensures GuardsKept(t, a, c)
  {
  }

  lemma {:induction false} GuardsKeptRefl(t: Tree, m: Macros)
    ensures GuardsKept(t, m, m)
  {
  }

  lemma {:induction false} GuardedFile(t: Tree, f: Path)
    requires WellFormed(t) && f in t.files
    ensures f in t.guards && Guarded(t.files[f], t.guards[f]) && !IsSeed(t.guards[f])
    ensures Clean(t, t.files[f][2..]) && 2 < |t.files[f]|
  {
    assert FileOk(t, f);
  }

  /** Main result.  Whenever the script succeeds, preprocessing its output gives the text that
      preprocessing the original tree gives, for every initial macro table and so for every outcome
      of the conditionals; and the original terminates although its include graph may be cyclic. */
  lemma {:induction false} AmalgamationPreservesMeaning(t: Tree, entry: Path, main: seq<Line>, macros: Macros, fuel: nat)
    requires WellFormed(t) && DistinctNames(t)
    requires Balanced(main, 0) && Clean(t, main)
    requires forall m <- macros :: !IsSeed(m)
    requires fuel > |t.files|
    requires Amalgamate(t, entry, main).Some?
    ensures Run(t, entry, main, State(macros, [], []), fuel).Some?
    ensures var original := Run(t, entry, main, State(macros, [], []), fuel).value;
            var inlined := RunFlat(Amalgamate(t, entry, main).value, State(macros, [], []));
            && original.out == inlined.out
            && Visible(original.macros) == Visible(inlined.macros)
            && original.stack == inlined.stack == []
  {
    var st := State(macros, [], []);
    assert SeedsImplyGuards(t, macros, macros);
    GuardCount(t);
    SubsetSize(Undefined(t, macros), t.guards.Values);
    Sim(t, entry, main, {}, st, st, fuel);
  }

  lemma {:induction false} GuardCount(t: Tree)
    requires t.guards.Keys == t.files.Keys
    ensures |t.guards.Values| <= |t.files|
  {
    ImageSize(t.guards, t.guards.Keys);
    assert t.guards.Values == set f | f in t.guards.Keys :: t.guards[f];
  }

  lemma {:induction false} ImageSize(m: map<Path, string>, keys: set<Path>)
    requires keys <= m.Keys
    ensures |set f | f in keys :: m[f]| <= |keys|
  {
    var image := set f | f in keys :: m[f];
    if keys == {} {
      assert image == {};
    } else {
      var k :| k in keys;
      ImageSize(m, keys - {k});
      var smaller := set f | f in keys - {k} :: m[f];
      assert image == smaller + {m[k]};
    }
  }

  // ----- the names must be distinct -----

  /** The two builds agree on this tree, main file and initial table. */
  ghost predicate Preserved(t: Tree, entry: Path, main: seq<Line>, macros: Macros, fuel: nat) {
    var script := Amalgamate(t, entry, main);
    var original := Run(t, entry, main, State(macros, [], []), fuel);
    script.Some? ==> original.Some? && original.value.out == RunFlat(script.value, State(macros, [], [])).out
  }

  /** A main file and table the theorem is about. */
  ghost predicate Usable(t: Tree, main: seq<Line>, macros: Macros, fuel: nat) {
    && Balanced(main, 0) && Clean(t, main) && fuel > |t.files|
    && forall m <- macros :: !IsSeed(m)
  }

  ghost predicate AlwaysPreserved(t: Tree) {
    forall entry, main, macros, fuel: nat | Usable(t, main, macros, fuel) :: Preserved(t, entry, main, macros, fuel)
  }

  function SampleGuard(f: Path): string {
    "G_" + f
  }

  /** A guarded file whose one line of text is its own name. */
  function SampleFile(f: Path): seq<Line> {
    [If(Not(Defined(SampleGuard(f)))), Define(SampleGuard(f), ""), Text(f), Endif]
  }

  function SampleTree(paths: set<Path>): Tree {
    Tree(map f | f in paths :: SampleFile(f), map f | f in paths :: ("", f) := f, map f | f in paths :: SampleGuard(f))
  }

  lemma {:induction false} SampleWellFormed(paths: set<Path>)
    ensures WellFormed(SampleTree(paths))
  {
    var t := SampleTree(paths);
    forall f | f in t.files ensures FileOk(t, f) {
      var lines := SampleFile(f);
      assert SampleGuard(f)[0] == 'G' && SEED_PREFIX[0] == 'O';
      assert lines[2..3] == [Text(f)] && [Text(f)][1..] == [];
      assert Balanced([Text(f)], 0);
      var c := Not(Defined(SampleGuard(f)));
      assert CleanCond(Defined(SampleGuard(f)));
      assert CleanCond(c);
      forall i | 0 <= i < |lines| ensures CleanLine(t, lines[i]) { }
    }
  }

  lemma {:induction false} SampleRun(f: Path, st: State)
    requires st.stack == [] && SampleGuard(f) !in st.macros
    ensures var r := RunFlat(SampleFile(f), st);
            r.stack == [] && r.macros == st.macros[SampleGuard(f) := ""]
            && r.out == st.out + [Emitted(f, Visible(r.macros))]
  {
    var lines := SampleFile(f);
    StepGuard(SampleGuard(f), st);
    assert lines[1..] == [Define(SampleGuard(f), ""), Text(f), Endif];
    assert lines[1..][1..] == [Text(f), Endif];
    assert lines[1..][1..][1..] == [Endif];
    var s1 := Step(lines[0], st);
    var s3 := Step(lines[2], Step(lines[1], s1));
    assert RunFlat(lines, st) == RunFlat(lines[1..], s1);
    assert RunFlat(lines[1..], s1) == RunFlat(lines[1..][1..], Step(lines[1], s1));
    assert RunFlat(lines[1..][1..], Step(lines[1], s1)) == RunFlat([Endif], s3);
    assert RunFlat([Endif], s3) == RunFlat([], Step(Endif, s3)) by { assert [Endif][1..] == []; }
  }

  lemma {:induction false} RunNoIncludes(t: Tree, from: Path, lines: seq<Line>, st: State, fuel: nat)
    requires forall l <- lines :: !l.Include?
    ensures Run(t, from, lines, st, fuel) == Some(RunFlat(lines, st))
    decreases |lines|
  {
    if lines != [] { RunNoIncludes(t, from, lines[1..], Step(lines[0], st), fuel); }
  }

  lemma {:induction false} ExpandNoIncludes(t: Tree, from: Path, lines: seq<Line>, active: set<Path>)
    requires forall l <- lines :: !l.Include?
    ensures Expand(t, from, lines, active) == Some(lines)
    decreases |lines|
  {
    if lines != [] {
      ExpandNoIncludes(t, from, lines[1..], active);
      assert [lines[0]] + lines[1..] == lines;
    }
  }

  /** The original build of the sample tree prints both texts. */
  lemma {:induction false} SampleOriginal(paths: set<Path>, p: Path, q: Path)
    requires p in paths && q in paths && p != q
    ensures var r := Run(SampleTree(paths), "", [Include(p), Include(q)], State(map[], [], []), |paths| + 1);
            r.Some? && |r.value.out| == 2
  {
    var t, main, st := SampleTree(paths), [Include(p), Include(q)], State(map[], [], []);
    var fuel := |paths| + 1;
    SampleRun(p, st);
    var s1 := RunFlat(SampleFile(p), st);
    assert SampleGuard(p)[2..] == p && SampleGuard(q)[2..] == q;
    SampleRun(q, s1);
    RunNoIncludes(t, p, SampleFile(p), st, fuel - 1);
    RunNoIncludes(t, q, SampleFile(q), s1, fuel - 1);
    assert main[1..] == [Include(q)] && main[1..][1..] == [];
    assert Run(t, "", main, st, fuel) == Run(t, "", main[1..], s1, fuel);
    assert Run(t, "", main[1..], s1, fuel) == Run(t, "", [], RunFlat(SampleFile(q), s1), fuel);
  }

  lemma {:induction false} SampleExpand(paths: set<Path>, p: Path, q: Path)
    requires p in paths && q in paths
    ensures Expand(SampleTree(paths), "", [Include(p), Include(q)], {}) ==
            Some([Remark(p)] + Wrap(p, SampleFile(p)) + ([Remark(q)] + Wrap(q, SampleFile(q)) + []))
  {
    var t, main := SampleTree(paths), [Include(p), Include(q)];
    SampleInline(paths, p);
    SampleInline(paths, q);
    assert main[1..] == [Include(q)] && main[1..][1..] == [];
    assert Expand(t, "", main[1..], {}) == Some([Remark(q)] + Wrap(q, SampleFile(q)) + []);
  }

  lemma {:induction false} SampleInline(paths: set<Path>, f: Path)
    requires f in paths
    ensures Inline(SampleTree(paths), f, {}) == Some(Wrap(f, SampleFile(f)))
  {
    ExpandNoIncludes(SampleTree(paths), f, SampleFile(f), {f});
    assert {} + {f} == {f};
  }

  /** The inlined build keeps only the first of two files that share a guard name. */
  lemma {:induction false} SampleFlat(p: Path, q: Path)
    requires GuardFor(p) == GuardFor(q)
    ensures var lines := [Remark(p)] + Wrap(p, SampleFile(p)) + ([Remark(q)] + Wrap(q, SampleFile(q)) + []);
            |RunFlat(lines, State(map[], [], [])).out| == 1
  {
    var st, wp, wq := State(map[], [], []), Wrap(p, SampleFile(p)), Wrap(q, SampleFile(q));
    SpliceFlat(p, wp, [Remark(q)] + wq + [], st);
    SampleBalanced(p);
    SampleBalanced(q);
    RunFlatWrap(p, SampleFile(p), st);
    assert SEED_PREFIX[0] == 'O' && SampleGuard(p)[0] == 'G' && GuardFor(p)[0] == 'O';
    SampleRun(p, State(map[GuardFor(p) := ""], [], []));
    var u := RunFlat(wp, st);
    assert u.stack == [] && GuardFor(q) in u.macros && |u.out| == 1;
    RunFlatWrap(q, SampleFile(q), u);
    SpliceFlat(q, wq, [], u);
  }

  lemma {:induction false} SampleBalanced(f: Path)
    ensures Balanced(SampleFile(f), 0)
  {
    SampleWellFormed({f});
    assert FileOk(SampleTree({f}), f);
    GuardedBalanced(SampleFile(f), SampleGuard(f));
  }

  /** Two files with one guard name: the second one's text is lost from the output. */
  lemma {:induction false} CollisionLosesText(paths: set<Path>, p: Path, q: Path)
    requires p in paths && q in paths && p != q && GuardFor(p) == GuardFor(q)
    ensures Usable(SampleTree(paths), [Include(p), Include(q)], map[], |paths| + 1)
    ensures !Preserved(SampleTree(paths), "", [Include(p), Include(q)], map[], |paths| + 1)
  {
    var main := [Include(p), Include(q)];
    assert SampleTree(paths).files.Keys == paths;
    assert main[1..] == [Include(q)] && main[1..][1..] == [];
    assert Balanced(main, 0) by { assert Balanced(main[1..], 0); }
    SampleOriginal(paths, p, q);
    SampleExpand(paths, p, q);
    SampleFlat(p, q);
  }

  ghost predicate NamesDistinct(paths: set<Path>) {
    forall f, g | f in paths && g in paths && GuardFor(f) == GuardFor(g) :: f == g
  }

  /** Distinct guard names are exactly what the script needs: over a given set of file names it
      preserves every well-formed tree if and only if no two of them give the same guard. */
  lemma {:induction false} PreservedIffNamesDistinct(paths: set<Path>)
    ensures (forall t | WellFormed(t) && t.files.Keys == paths :: AlwaysPreserved(t)) <==> NamesDistinct(paths)
  {
    if NamesDistinct(paths) {
      forall t | WellFormed(t) && t.files.Keys == paths ensures AlwaysPreserved(t) {
        assert DistinctNames(t);
        forall entry, main, macros, fuel: nat | Usable(t, main, macros, fuel)
          ensures Preserved(t, entry, main, macros, fuel)
        {
          if Amalgamate(t, entry, main).Some? { AmalgamationPreservesMeaning(t, entry, main, macros, fuel); }
        }
      }
    } else {
      var p, q :| p in paths && q in paths && GuardFor(p) == GuardFor(q) && p != q;
      var t := SampleTree(paths);
      SampleWellFormed(paths);
      CollisionLosesText(paths, p, q);
      assert t.files.Keys == paths && !AlwaysPreserved(t);
    }
  }

  /** Two names of real shape that collide. */
  lemma {:induction false} CollidingNames()
    ensures GuardFor("a/b.h") == GuardFor("a_b.h") == "ORBIT_SEED_FILE_A_B_H"
  {
    IdentSteps('a', "/b.h"); IdentSteps('/', "b.h"); IdentSteps('b', ".h"); IdentSteps('.', "h"); IdentSteps('h', "");
    IdentSteps('a', "_b.h"); IdentSteps('_', "b.h");
    assert IdentChars("a/b.h") == "A_B_H" && IdentChars("a_b.h") == "A_B_H";
    assert StripLeft("A_B_H") == "A_B_H" && StripRight("A_B_H") == "A_B_H";
  }

  lemma {:induction false} IdentSteps(c: char, s: string)
    ensures IdentChars([c] + s) == [IdentChar(c)] + IdentChars(s)
  {
    assert ([c] + s)[1..] == s;
  }
}
