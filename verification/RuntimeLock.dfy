/** The non-dev dependency closure of `scripts/derive_runtime_lock.py`.

    Names and extras are canonical here, and a marker is the truth value it
    takes in the current environment for each value of `extra`. */
module RuntimeLock {
  import opened Wrappers
  import opened Text

  const PROJECT_DISTRIBUTION := "arxiv-research-agent"

  datatype Requirement = Requirement(name: string, extras: set<string>, marker: Option<string -> bool>)

  /** The requirements of every installed distribution. */
  type Installed = map<string, seq<Requirement>>

  /** The extras switched on for each distribution reached so far. */
  type Active = map<string, set<string>>

  // ---- The rule the walk closes under -------------------------------------

  ghost predicate Applies(r: Requirement, extras: set<string>) {
    r.marker.Some? ==> exists e :: e in extras + {""} && r.marker.value(e)
  }

  ghost predicate Covered(r: Requirement, a: Active) {
    r.name in a && r.extras <= a[r.name]
  }

  /** Every listed requirement that applies under `extras` is covered by `a`. */
  ghost predicate Honoured(reqs: seq<Requirement>, extras: set<string>, a: Active) {
    forall i :: 0 <= i < |reqs| && Applies(reqs[i], extras) ==> Covered(reqs[i], a)
  }

  /** A distribution that is not installed has no requirements to honour. */
  ghost predicate Settled(n: string, a: Active, installed: Installed)
    requires n in a
  {
    n in installed ==> Honoured(installed[n], a[n], a)
  }

  ghost predicate Closed(a: Active, roots: seq<Requirement>, installed: Installed) {
    Honoured(roots, {}, a) && forall n :: n in a ==> Settled(n, a, installed)
  }

  ghost predicate Below(a: Active, b: Active) {
    forall n :: n in a ==> n in b && a[n] <= b[n]
  }

  /** The least assignment of extras closed under the applicable requirements. */
  ghost predicate LeastClosed(a: Active, roots: seq<Requirement>, installed: Installed) {
    Closed(a, roots, installed) && forall b :: Closed(b, roots, installed) ==> Below(a, b)
  }

  lemma LeastClosedIsUnique(a: Active, b: Active, roots: seq<Requirement>, installed: Installed)
    requires LeastClosed(a, roots, installed) && LeastClosed(b, roots, installed)
    ensures a == b
  {
    assert Below(a, b) && Below(b, a);
    assert forall n :: n in a ==> a[n] == b[n];
  }

  /** The same requirements, listed in any order and any number of times. */
  ghost predicate SameRequirements(p: seq<Requirement>, q: seq<Requirement>) {
    (forall r :: r in p <==> r in q)
  }

  lemma HonouredInAnyOrder(p: seq<Requirement>, q: seq<Requirement>, extras: set<string>, a: Active)
    requires SameRequirements(p, q) && Honoured(p, extras, a)
    ensures Honoured(q, extras, a)
  {
    forall i | 0 <= i < |q| && Applies(q[i], extras) ensures Covered(q[i], a) {
      assert q[i] in p;
    }
  }

  lemma ClosedInAnyOrder(a: Active, roots: seq<Requirement>, installed: Installed,
                         roots': seq<Requirement>, installed': Installed)
    requires SameRequirements(roots, roots') && installed.Keys == installed'.Keys
    requires forall n :: n in installed ==> SameRequirements(installed[n], installed'[n])
    requires Closed(a, roots, installed)
    ensures Closed(a, roots', installed')
  {
    HonouredInAnyOrder(roots, roots', {}, a);
    forall n | n in a ensures Settled(n, a, installed') {
      assert Settled(n, a, installed);
      if n in installed { HonouredInAnyOrder(installed[n], installed'[n], a[n], a); }
    }
  }

  /** What the walk computes does not depend on the order in which metadata
      lists requirements. */
  lemma LeastClosedInAnyOrder(a: Active, roots: seq<Requirement>, installed: Installed,
                              roots': seq<Requirement>, installed': Installed)
    requires SameRequirements(roots, roots') && installed.Keys == installed'.Keys
    requires forall n :: n in installed ==> SameRequirements(installed[n], installed'[n])
    ensures LeastClosed(a, roots, installed) <==> LeastClosed(a, roots', installed')
  {
    forall b ensures Closed(b, roots, installed) <==> Closed(b, roots', installed') {
      if Closed(b, roots, installed) { ClosedInAnyOrder(b, roots, installed, roots', installed'); }
      if Closed(b, roots', installed') { ClosedInAnyOrder(b, roots', installed', roots, installed); }
    }
  }

  // ---- A finite universe, for termination -----------------------------------

  datatype Fact = Reached(name: string) | Enabled(name: string, extra: string)

  ghost function Facts(a: Active): set<Fact> {
    (set n | n in a :: Reached(n)) + (set n, e | n in a && e in a[n] :: Enabled(n, e))
  }

  ghost function FactsOf(reqs: seq<Requirement>): set<Fact> {
    (set i | 0 <= i < |reqs| :: Reached(reqs[i].name))
    + (set i, e | 0 <= i < |reqs| && e in reqs[i].extras :: Enabled(reqs[i].name, e))
  }

  /** Every fact some requirement could contribute. */
  ghost function Universe(roots: seq<Requirement>, installed: Installed): set<Fact> {
    FactsOf(roots) + (set n, f | n in installed && f in FactsOf(installed[n]) :: f)
  }

  // ---- The worklist ----------------------------------------------------------

  /** `a` after `activate(r)`. */
  function Raise(a: Active, r: Requirement): Active {
    a[r.name := (if r.name in a then a[r.name] else {}) + r.extras]
  }

  /** The loop invariant. A name that is not queued has been visited under the
      extras it has now; `busy`, if any, is being visited and may be stale. */
  ghost predicate Consistent(a: Active, queue: seq<string>, visited: map<string, set<string>>,
                             busy: Option<string>, roots: seq<Requirement>, installed: Installed)
  {
    && (forall n :: n in queue ==> n in a)
    && (forall n :: n in visited ==> n in a && visited[n] <= a[n] && n in installed)
    && (forall n :: n in a && n !in queue ==> n in visited && visited[n] == a[n])
    && (forall n :: n in visited && visited[n] == a[n] && busy != Some(n) ==> Settled(n, a, installed))
    && Facts(a) <= Universe(roots, installed)
    && (forall b :: Closed(b, roots, installed) ==> Below(a, b))
  }

  lemma RaiseFacts(a: Active, r: Requirement)
    ensures Facts(a) <= Facts(Raise(a, r)) <= Facts(a) + FactsOf([r])
    ensures Covered(r, a) ==> Raise(a, r) == a
    ensures !Covered(r, a) ==> Facts(a) < Facts(Raise(a, r))
    ensures Covered(r, Raise(a, r)) && Below(a, Raise(a, r))
  {
    var a', s := Raise(a, r), [r];
    assert s[0] == r;
    assert Reached(r.name) in FactsOf(s);
    forall e | e in r.extras ensures Enabled(r.name, e) in FactsOf(s) { assert e in s[0].extras; }
    if Covered(r, a) { assert a[r.name] + r.extras == a[r.name]; }
    if r.name in a && !(r.extras <= a[r.name]) {
      var e :| e in r.extras && e !in a[r.name];
      assert Enabled(r.name, e) in Facts(a') - Facts(a);
    } else if r.name !in a {
      assert Reached(r.name) in Facts(a') - Facts(a);
    }
  }

  /** Activating a requirement every closed assignment covers keeps the invariant. */
  lemma RaiseKeepsConsistent(a: Active, queue: seq<string>, visited: map<string, set<string>>,
                             busy: Option<string>, r: Requirement,
                             roots: seq<Requirement>, installed: Installed)
    requires Consistent(a, queue, visited, busy, roots, installed)
    requires !Covered(r, a) && FactsOf([r]) <= Universe(roots, installed)
    requires forall b :: Closed(b, roots, installed) ==> Covered(r, b)
    ensures Consistent(Raise(a, r), queue + [r.name], visited, busy, roots, installed)
  {
    var a' := Raise(a, r);
    RaiseFacts(a, r);
    forall n | n in visited && visited[n] == a'[n] && busy != Some(n) ensures Settled(n, a', installed) {
      assert visited[n] <= a[n] <= a'[n];
    }
    forall b | Closed(b, roots, installed) ensures Below(a', b) {
      assert Below(a, b) && Covered(r, b);
    }
  }

  lemma FactsOfOne(reqs: seq<Requirement>, i: nat)
    requires i < |reqs|
    ensures FactsOf([reqs[i]]) <= FactsOf(reqs)
  {
    forall f | f in FactsOf([reqs[i]]) ensures f in FactsOf(reqs) {
      if f.Enabled? { assert f.extra in reqs[i].extras && f.name == reqs[i].name; }
    }
  }

  /** An applicable requirement of a distribution reached so far is covered in
      every closed assignment: more extras only make more markers true. */
  lemma ApplicableIsForced(a: Active, n: string, i: nat, roots: seq<Requirement>, installed: Installed)
    requires n in a && n in installed && i < |installed[n]| && Applies(installed[n][i], a[n])
    requires forall b :: Closed(b, roots, installed) ==> Below(a, b)
    ensures forall b :: Closed(b, roots, installed) ==> Covered(installed[n][i], b)
    ensures FactsOf([installed[n][i]]) <= Universe(roots, installed)
  {
    var r := installed[n][i];
    forall b | Closed(b, roots, installed) ensures Covered(r, b) {
      assert Below(a, b) && Settled(n, b, installed);
      assert Applies(r, b[n]) by {
        if r.marker.Some? {
          var e :| e in a[n] + {""} && r.marker.value(e);
          assert e in b[n] + {""};
        }
      }
    }
    FactsOfOne(installed[n], i);
  }

  lemma QuietIsLeast(a: Active, visited: map<string, set<string>>, roots: seq<Requirement>, installed: Installed)
    requires Consistent(a, [], visited, None, roots, installed) && Honoured(roots, {}, a)
    ensures LeastClosed(a, roots, installed) && a.Keys <= installed.Keys
  {
    forall n | n in a ensures Settled(n, a, installed) && n in installed {
      assert n !in [];
    }
  }

  lemma HonouredUp(reqs: seq<Requirement>, extras: set<string>, a: Active, b: Active)
    requires Honoured(reqs, extras, a) && Below(a, b)
    ensures Honoured(reqs, extras, b)
  {
    forall i | 0 <= i < |reqs| && Applies(reqs[i], extras) ensures Covered(reqs[i], b) {
    }
  }

  lemma HonouredNext(reqs: seq<Requirement>, i: nat, extras: set<string>, a: Active, b: Active)
    requires i < |reqs| && Honoured(reqs[..i], extras, a) && Below(a, b)
    requires Applies(reqs[i], extras) ==> Covered(reqs[i], b)
    ensures Honoured(reqs[..i + 1], extras, b)
  {
    HonouredUp(reqs[..i], extras, a, b);
    hide Applies, Covered;
    var all := reqs[..i + 1];
    forall j | 0 <= j < |all| && Applies(all[j], extras) ensures Covered(all[j], b) {
      if j < i { assert reqs[..i][j] == all[j]; }
    }
  }

  /** What activating `r` does to the walk, whether or not `r` is news. */
  lemma ActivateAdvances(a: Active, queue: seq<string>, visited: map<string, set<string>>, busy: Option<string>,
                         r: Requirement, roots: seq<Requirement>, installed: Installed)
    requires Consistent(a, queue, visited, busy, roots, installed) && FactsOf([r]) <= Universe(roots, installed)
    requires forall b :: Closed(b, roots, installed) ==> Covered(r, b)
    ensures var b := Raise(a, r);
            && Consistent(b, queue + if Covered(r, a) then [] else [r.name], visited, busy, roots, installed)
            && Below(a, b) && Covered(r, b) && Facts(a) <= Facts(b)
            && (Facts(a) == Facts(b) ==> Covered(r, a))
  {
    hide *;
    RaiseFacts(a, r);
    if Covered(r, a) {
      assert queue + [] == queue;
    } else {
      RaiseKeepsConsistent(a, queue, visited, busy, r, roots, installed);
    }
  }

  lemma VisitedIsActive(a: Active, queue: seq<string>, visited: map<string, set<string>>,
                        name: string, roots: seq<Requirement>, installed: Installed)
    requires Consistent(a, queue, visited, Some(name), roots, installed) && name in visited
    ensures name in a && visited[name] <= a[name]
    ensures forall b :: Closed(b, roots, installed) ==> Below(a, b)
  {
    hide Closed, Settled, Facts, Universe, Below;
  }

  /** A visit is over: `name` is settled, or its extras have grown and it is queued. */
  lemma VisitDone(a: Active, queue: seq<string>, visited: map<string, set<string>>,
                  name: string, roots: seq<Requirement>, installed: Installed)
    requires Consistent(a, queue, visited, Some(name), roots, installed)
    requires name in visited && name in installed && name in a
    requires visited[name] == a[name] ==> Honoured(installed[name], a[name], a)
    ensures Consistent(a, queue, visited, None, roots, installed)
  {
    hide Closed, Honoured, Facts, Universe, Below;
  }

  /** `_requirement_applies`: some active extra, or the base context, makes the marker true. */
  method RequirementApplies(r: Requirement, extras: set<string>) returns (yes: bool)
    ensures yes <==> Applies(r, extras)
    ensures yes <==> r.marker.None? || r.marker.value("") || exists e :: e in extras && r.marker.value(e)
  {
    if r.marker.None? {
      return true;
    }
    var todo := extras + {""};
    while todo != {}
      invariant todo <= extras + {""}
      invariant forall e :: e in extras + {""} && e !in todo ==> !r.marker.value(e)
      decreases todo
    {
      var e :| e in todo;
      if r.marker.value(e) {
        return true;
      }
      todo := todo - {e};
    }
    return false;
  }

  lemma BelowItself(a: Active)
    ensures Below(a, a)
  {
  }

  lemma BelowBelow(a: Active, b: Active, c: Active)
    requires Below(a, b) && Below(b, c)
    ensures Below(a, c)
  {
  }

  lemma BelowAt(a: Active, b: Active, n: string)
    requires Below(a, b) && n in a
    ensures n in b && a[n] <= b[n]
  {
  }

  lemma NothingToHonour(reqs: seq<Requirement>, extras: set<string>, a: Active)
    requires reqs == []
    ensures Honoured(reqs, extras, a)
  {
  }

  lemma NothingReached(a: Active, queue: seq<string>, visited: map<string, set<string>>,
                       roots: seq<Requirement>, installed: Installed)
    requires a == map[] && queue == [] && visited == map[]
    ensures Consistent(a, queue, visited, None, roots, installed)
    ensures Honoured(roots[..0], {}, a)
  {
  }

  /** The walk's mutable state. A distribution's extras live in `active` alone:
      while it is visited, activating itself changes what the visit reads. */
  class Walk {
    var active: Active
    var queue: seq<string>
    var visited: map<string, set<string>>

    constructor ()
      ensures active == map[] && queue == [] && visited == map[]
    {
      active, queue, visited := map[], [], map[];
    }

    method Activate(r: Requirement)
      modifies this
      ensures active == Raise(old(active), r)
      ensures queue == old(queue) + if Covered(r, old(active)) then [] else [r.name]
      ensures visited == old(visited)
    {
      var isNew := r.name !in active;
      if isNew { active := active[r.name := {}]; }
      if isNew || !(r.extras <= active[r.name]) {
        active := active[r.name := active[r.name] + r.extras];
        queue := queue + [r.name];
      }
      RaiseFacts(old(active), r);
    }

    method ActivateRoots(roots: seq<Requirement>, ghost installed: Installed)
      requires active == map[] && queue == [] && visited == map[]
      modifies this
      ensures Consistent(active, queue, visited, None, roots, installed)
      ensures Honoured(roots, {}, active)
    {
      NothingReached(active, queue, visited, roots, installed);
      hide *;
      for i := 0 to |roots|
        invariant Consistent(active, queue, visited, None, roots, installed)
        invariant Honoured(roots[..i], {}, active)
      {
        ghost var was := active;
        BelowItself(was);
        var applies := RequirementApplies(roots[i], {});
        if applies {
          ActivateAdvances(active, queue, visited, None, roots[i], roots, installed);
          Activate(roots[i]);
        }
        HonouredNext(roots, i, {}, was, active);
      }
      assert roots[..|roots|] == roots;
    }

    /** One visit: every requirement of `name` that applies under its extras,
        as they stand when the requirement is looked at, is activated. */
    method Visit(name: string, ghost roots: seq<Requirement>, installed: Installed)
      requires name in installed && name in visited
      requires Consistent(active, queue, visited, Some(name), roots, installed)
      modifies this
      ensures Consistent(active, queue, visited, None, roots, installed)
      ensures Below(old(active), active) && visited == old(visited)
      ensures Facts(old(active)) <= Facts(active)
      ensures Facts(old(active)) == Facts(active) ==> queue == old(queue)
    {
      hide *;
      var requires_ := installed[name];
      VisitedIsActive(active, queue, visited, name, roots, installed);
      BelowItself(active);
      NothingToHonour(requires_[..0], active[name], active);
      for i := 0 to |requires_|
        invariant Consistent(active, queue, visited, Some(name), roots, installed)
        invariant Below(old(active), active) && visited == old(visited)
        invariant name in active && visited[name] <= active[name]
        invariant Facts(old(active)) <= Facts(active)
        invariant Facts(old(active)) == Facts(active) ==> queue == old(queue)
        invariant visited[name] == active[name] ==> Honoured(requires_[..i], active[name], active)
      {
        ghost var was := active;
        BelowItself(was);
        VisitedIsActive(active, queue, visited, name, roots, installed);
        var applies := RequirementApplies(requires_[i], active[name]);
        if applies {
          ApplicableIsForced(active, name, i, roots, installed);
          ActivateAdvances(active, queue, visited, Some(name), requires_[i], roots, installed);
          Activate(requires_[i]);
          BelowBelow(old(active), was, active);
          BelowAt(was, active, name);
        }
        if visited[name] == active[name] {
          HonouredNext(requires_, i, active[name], was, active);
        }
      }
      assert requires_[..|requires_|] == requires_;
      VisitDone(active, queue, visited, name, roots, installed);
    }

    /** One turn of the loop: pop a name and, unless its extras were visited
        already, visit it. Either a fact is gained or the queue gets shorter. */
    method VisitNext(roots: seq<Requirement>, installed: Installed) returns (missing: Option<string>)
      requires queue != [] && Consistent(active, queue, visited, None, roots, installed)
      modifies this
      ensures missing.None? ==> Consistent(active, queue, visited, None, roots, installed)
      ensures missing.None? ==> Below(old(active), active) && Facts(old(active)) <= Facts(active)
      ensures missing.None? && Facts(old(active)) == Facts(active) ==> |queue| < |old(queue)|
      ensures missing.Some? ==> missing.value !in installed && missing.value in active
      ensures missing.Some? ==> active == old(active)
    {
      var name := queue[0];
      queue := queue[1..];
      var signature := active[name];
      if name in visited && visited[name] == signature {
        return None;
      }
      if name !in installed {
        return Some(name);
      }
      visited := visited[name := signature];
      Visit(name, roots, installed);
      return None;
    }

    /** Visits until nothing is queued; the walk ends because every enqueue adds
        one of finitely many facts. */
    method Drain(roots: seq<Requirement>, installed: Installed) returns (missing: Option<string>)
      requires Consistent(active, queue, visited, None, roots, installed)
      requires Honoured(roots, {}, active)
      modifies this
      ensures missing.None? ==> LeastClosed(active, roots, installed) && active.Keys <= installed.Keys
      ensures missing.Some? ==> missing.value !in installed
      ensures missing.Some? ==> forall b :: Closed(b, roots, installed) ==> missing.value in b
    {
      while queue != []
        invariant Consistent(active, queue, visited, None, roots, installed)
        invariant Honoured(roots, {}, active)
        decreases |Universe(roots, installed) - Facts(active)|, |queue|
      {
        ghost var was := active;
        assert forall b :: Closed(b, roots, installed) ==> Below(active, b);
        missing := VisitNext(roots, installed);
        if missing.Some? {
          return;
        }
        HonouredUp(roots, {}, was, active);
        FewerLeft(Universe(roots, installed), Facts(was), Facts(active));
      }
      QuietIsLeast(active, visited, roots, installed);
      return None;
    }
  }

  lemma FewerLeft(u: set<Fact>, f: set<Fact>, g: set<Fact>)
    requires f <= g <= u
    ensures |u - g| <= |u - f|
    ensures f != g ==> |u - g| < |u - f|
  {
    assert u - f == (u - g) + (g - f);
    if f != g { var x :| x in g && x !in f; assert x in g - f; }
  }

  /** `runtime_distribution_names`: the names of the least closed assignment, or
      the name of a distribution that every closure needs and nobody installed. */
  method RuntimeDistributionNames(project: Option<seq<Requirement>>, installed: Installed)
    returns (r: Result<set<string>, string>, ghost closure: Active)
    ensures project.None? ==> r == Failure(PROJECT_DISTRIBUTION)
    ensures project.Some? && r.Success? ==>
              LeastClosed(closure, project.value, installed) && r.value == closure.Keys <= installed.Keys
    ensures project.Some? && r.Failure? ==>
              r.error !in installed && forall b :: Closed(b, project.value, installed) ==> r.error in b
  {
    closure := map[];
    if project.None? {
      return Failure(PROJECT_DISTRIBUTION), closure;
    }
    var walk := new Walk();
    walk.ActivateRoots(project.value, installed);
    var missing := walk.Drain(project.value, installed);
    closure := walk.active;
    if missing.Some? {
      return Failure(missing.value), closure;
    }
    return Success(walk.active.Keys), closure;
  }

  // ---- The lock file -----------------------------------------------------------

  /** A line of the full lock: blank or comment, or a parsed requirement with
      its specifier operators. */
  datatype LockLine = Ignored | Pin(name: string, operators: seq<string>, text: string)

  datatype LockError =
    | NotExact(text: string)
    | Duplicate(name: string)
    | NotInstalled(name: string)
    | NotLocked(names: seq<string>)

  ghost predicate Exact(l: LockLine) {
    l.Pin? && l.operators == ["=="]
  }

  ghost predicate Repeated(lines: seq<LockLine>, i: nat)
    requires i < |lines|
  {
    lines[i].Pin? && exists j :: 0 <= j < i && lines[j].Pin? && lines[j].name == lines[i].name
  }

  /** A line the parser stops at. */
  ghost predicate Bad(lines: seq<LockLine>, i: nat)
    requires i < |lines|
  {
    lines[i].Pin? && (!Exact(lines[i]) || Repeated(lines, i))
  }

  /** No line is bad: every pin is exact, and no two pin the same name. */
  lemma NoneBad(lines: seq<LockLine>)
    ensures (forall i :: 0 <= i < |lines| ==> !Bad(lines, i)) <==>
              && (forall i :: 0 <= i < |lines| && lines[i].Pin? ==> lines[i].operators == ["=="])
              && forall i, j :: 0 <= j < i < |lines| && lines[j].Pin? && lines[i].Pin? ==>
                   lines[j].name != lines[i].name
  {
    if forall i :: 0 <= i < |lines| ==> !Bad(lines, i) {
      forall i, j | 0 <= j < i < |lines| && lines[j].Pin? && lines[i].Pin? ensures lines[j].name != lines[i].name {
        assert !Bad(lines, i);
      }
      forall i | 0 <= i < |lines| && lines[i].Pin? ensures lines[i].operators == ["=="] {
        assert !Bad(lines, i);
      }
    }
  }

  /** `locked` is the pins among the first `n` lines, each under its own name. */
  ghost predicate PinsOf(locked: map<string, string>, lines: seq<LockLine>, n: nat)
    requires n <= |lines|
  {
    && (forall i :: 0 <= i < n && lines[i].Pin? ==> lines[i].name in locked && locked[lines[i].name] == lines[i].text)
    && (forall name :: name in locked ==> exists i :: 0 <= i < n && lines[i].Pin? && lines[i].name == name)
  }

  /** The error is the one for the first bad line. */
  ghost predicate StopsWith(lines: seq<LockLine>, error: LockError) {
    exists i ::
      && 0 <= i < |lines| && Bad(lines, i)
      && (forall j :: 0 <= j < i ==> !Bad(lines, j))
      && error == if Exact(lines[i]) then Duplicate(lines[i].name) else NotExact(lines[i].text)
  }

  /** `_locked_lines`: all the pins, or the first line that is not an exact pin
      or repeats a name. */
  method LockedLines(lines: seq<LockLine>) returns (r: Result<map<string, string>, LockError>)
    ensures r.Success? <==>
              && (forall i :: 0 <= i < |lines| && lines[i].Pin? ==> lines[i].operators == ["=="])
              && forall i, j :: 0 <= j < i < |lines| && lines[j].Pin? && lines[i].Pin? ==>
                   lines[j].name != lines[i].name
    ensures r.Success? ==> PinsOf(r.value, lines, |lines|)
    ensures r.Failure? ==> StopsWith(lines, r.error)
  {
    var locked: map<string, string> := map[];
    for i := 0 to |lines|
      invariant PinsOf(locked, lines, i)
      invariant forall j :: 0 <= j < i ==> !Bad(lines, j)
    {
      var l := lines[i];
      if l.Pin? {
        if l.operators != ["=="] {
          assert Bad(lines, i);
          NoneBad(lines);
          return Failure(NotExact(l.text));
        }
        if l.name in locked {
          assert Bad(lines, i);
          NoneBad(lines);
          return Failure(Duplicate(l.name));
        }
        assert forall j :: 0 <= j < i && lines[j].Pin? ==> lines[j].name != l.name;
        locked := locked[l.name := l.text];
        assert lines[i].name in locked;
      }
    }
    NoneBad(lines);
    return Success(locked);
  }

  /** `out` is the pin of every name in the closure, in the order of the names. */
  ghost predicate RuntimeLockOf(out: seq<string>, locked: map<string, string>, closure: Active) {
    exists names :: Ascending(names) && (forall n :: n in names <==> n in closure)
      && |out| == |names| && forall k :: 0 <= k < |out| ==> names[k] in locked && out[k] == locked[names[k]]
  }

  /** A lock rendered twice from the same pins and the same requirements, in
      whatever order these are listed, is the same text. */
  lemma RuntimeLockIsUnique(out: seq<string>, out': seq<string>, locked: map<string, string>,
                            a: Active, roots: seq<Requirement>, installed: Installed,
                            a': Active, roots': seq<Requirement>, installed': Installed)
    requires SameRequirements(roots, roots') && installed.Keys == installed'.Keys
    requires forall n :: n in installed ==> SameRequirements(installed[n], installed'[n])
    requires LeastClosed(a, roots, installed) && LeastClosed(a', roots', installed')
    requires RuntimeLockOf(out, locked, a) && RuntimeLockOf(out', locked, a')
    ensures out == out'
  {
    LeastClosedInAnyOrder(a, roots, installed, roots', installed');
    LeastClosedIsUnique(a, a', roots', installed');
    var names :| Ascending(names) && (forall n :: n in names <==> n in a)
      && |out| == |names| && forall k :: 0 <= k < |out| ==> names[k] in locked && out[k] == locked[names[k]];
    var names' :| Ascending(names') && (forall n :: n in names' <==> n in a')
      && |out'| == |names'| && forall k :: 0 <= k < |out'| ==> names'[k] in locked && out'[k] == locked[names'[k]];
    AscendingIsUnique(names, names');
  }

  /** `render_runtime_lock`: read the pins, walk the closure, and refuse a
      closure that names a distribution without a pin. */
  method RenderRuntimeLock(lines: seq<LockLine>, project: Option<seq<Requirement>>, installed: Installed)
    returns (r: Result<seq<string>, LockError>,
             ghost locked: map<string, string>, ghost closure: Active, ghost names: seq<string>)
    ensures r.Success? || r.error.NotLocked? ==>
              project.Some? && PinsOf(locked, lines, |lines|) && LeastClosed(closure, project.value, installed)
    ensures r.Success? ==> RuntimeLockOf(r.value, locked, closure)
    ensures r.Success? ==>
              && (forall n :: n in names <==> n in closure) && |names| == |r.value|
              && forall k :: 0 <= k < |names| ==> names[k] in locked && r.value[k] == locked[names[k]]
    ensures r.Success? || r.error.NotLocked? ==>
              forall j, k :: 0 <= j < k < |names| ==>
                || names[j] < names[k]
                || exists i :: 0 <= i < |names[j]| && i < |names[k]|
                      && names[j][..i] == names[k][..i] && names[j][i] < names[k][i]
    ensures r.Failure? && (r.error.NotExact? || r.error.Duplicate?) ==> StopsWith(lines, r.error)
    ensures r.Failure? && r.error.NotInstalled? && project.None? ==> r.error.name == PROJECT_DISTRIBUTION
    ensures r.Failure? && r.error.NotInstalled? && project.Some? ==>
              r.error.name !in installed && forall b :: Closed(b, project.value, installed) ==> r.error.name in b
    ensures r.Failure? && r.error.NotLocked? ==> r.error.names == names != [] && Ascending(names)
    ensures r.Failure? && r.error.NotLocked? ==>
              forall n :: n in r.error.names <==> n in closure && n !in locked
  {
    locked, closure, names := map[], map[], [];
    var pins := LockedLines(lines);
    if pins.Failure? {
      return Failure(pins.error), locked, closure, names;
    }
    locked := pins.value;
    var needed;
    needed, closure := RuntimeDistributionNames(project, installed);
    if needed.Failure? {
      return Failure(NotInstalled(needed.error)), locked, closure, names;
    }
    var missing := SortNames(needed.value - pins.value.Keys);
    if missing != [] {
      AscendingIsPythonOrder(missing);
      names := missing;
      return Failure(NotLocked(missing)), locked, closure, names;
    }
    assert forall n :: n in needed.value ==> n in pins.value by {
      forall n | n in needed.value ensures n in pins.value {
        assert n in needed.value - pins.value.Keys <==> n in missing;
      }
    }
    var order := SortNames(needed.value);
    var out := [];
    for i := 0 to |order|
      invariant |out| == i && forall k :: 0 <= k < i ==> order[k] in locked && out[k] == locked[order[k]]
    {
      assert order[i] in needed.value;
      out := out + [pins.value[order[i]]];
    }
    AscendingIsPythonOrder(order);
    names := order;
    return Success(out), locked, closure, names;
  }
}
