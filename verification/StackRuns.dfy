/** What stack creation guarantees for every template, every order of walking it and every failure. */
module StackRuns {
  import opened Options
  import opened Stacks

  /** `order` names each key of the template exactly once: one way to range over a map. */
  ghost predicate Enumerates(order: seq<string>, t: Template) {
    && (forall k :: k in order <==> k in t)
    && (forall i, j | 0 <= i < j < |order| :: order[i] != order[j])
  }

  ghost predicate ValidOrders(orders: seq<seq<string>>, t: Template) {
    |orders| == 4 && forall p | 0 <= p < 4 :: Enumerates(orders[p], t)
  }

  /** The template entry is one of the four kinds that stacks create. */
  predicate Wanted(t: Template, k: string) { k in t && !t[k].kind.Unsupported? }

  // ---------------------------------------------------------------- the work list

  ghost predicate NoRepeats(s: seq<string>) { forall i, j | 0 <= i < j < |s| :: s[i] != s[j] }

  lemma {:induction false} OfKindContents(t: Template, order: seq<string>, kind: Kind)
    requires NoRepeats(order)
    ensures NoRepeats(OfKind(t, order, kind))
    ensures forall k :: k in OfKind(t, order, kind) <==> k in order && k in t && t[k].kind == kind
  {
    if order != [] {
      var tail := order[1..];
      assert NoRepeats(tail) by {
        forall i, j | 0 <= i < j < |tail| ensures tail[i] != tail[j] { assert order[i + 1] != order[j + 1]; }
      }
      OfKindContents(t, tail, kind);
      assert forall k :: k in order <==> k == order[0] || k in tail;
      assert order[0] !in tail;
    }
  }

  /** Ranks never decrease along the list. */
  ghost predicate ByRank(t: Template, work: seq<string>) {
    forall i, j | 0 <= i < j < |work| && work[i] in t && work[j] in t :: Rank(t[work[i]].kind) <= Rank(t[work[j]].kind)
  }

  /** The work of the first `p` passes: exactly the entries of the first `p` kinds, each once, kind by kind. */
  lemma {:induction false} WorkUpToContents(t: Template, orders: seq<seq<string>>, p: nat)
    requires ValidOrders(orders, t) && p <= 4
    ensures var work := WorkUpTo(t, orders, p);
            && (forall k :: k in work <==> Wanted(t, k) && Rank(t[k].kind) < p)
            && NoRepeats(work)
            && ByRank(t, work)
  {
    if p > 0 {
      WorkUpToContents(t, orders, p - 1);
      var before, now := WorkUpTo(t, orders, p - 1), OfKind(t, orders[p - 1], KINDS[p - 1]);
      assert Enumerates(orders[p - 1], t);
      OfKindContents(t, orders[p - 1], KINDS[p - 1]);
      RankOfPass(p - 1);
      var work := before + now;
      forall k ensures k in work <==> Wanted(t, k) && Rank(t[k].kind) < p {
        assert k in work <==> k in before || k in now;
      }
    }
  }

  lemma RankOfPass(p: nat)
    requires p < 4
    ensures forall kind :: Rank(kind) == p <==> kind == KINDS[p]
  {
  }

  lemma WorkContents(t: Template, orders: seq<seq<string>>)
    requires ValidOrders(orders, t)
    ensures forall k :: k in Work(t, orders) <==> Wanted(t, k)
    ensures NoRepeats(Work(t, orders)) && ByRank(t, Work(t, orders))
  {
    WorkUpToContents(t, orders, 4);
    WorkUpToAll(t, orders);
  }

  /** VPCs come first, then volumes, then instances, then snapshots. */
  predicate InOrder(earlier: Kind, later: Kind) {
    match later
    case Vpc => earlier.Vpc?
    case Volume => earlier.Vpc? || earlier.Volume?
    case Instance => !earlier.Snapshot? && !earlier.Unsupported?
    case Snapshot => !earlier.Unsupported?
    case Unsupported(_) => false
  }

  // ---------------------------------------------------------------- what gets created

  function Logicals(cs: seq<Created>): (r: seq<string>)
    ensures |r| == |cs| && forall i | 0 <= i < |r| :: r[i] == cs[i].logical
  {
    seq(|cs|, i requires 0 <= i < |cs| => cs[i].logical)
  }

  function Kept(env: Env, cs: seq<Created>): seq<Created> {
    if cs == [] then []
    else
      var last := cs[|cs| - 1];
      Kept(env, cs[..|cs| - 1]) + (if env.record(last.physical) then [last] else [])
  }

  /** Creations carry the kind of their template entry, number their physical resources in order, each from a call that
      succeeded, and are recorded unless recording failed. */
  ghost predicate WorldInv(env: Env, t: Template, w: World) {
    && (forall i | 0 <= i < |w.created| ::
          w.created[i].logical in t && w.created[i].kind == t[w.created[i].logical].kind)
    && (forall i | 0 <= i < |w.created| :: w.created[i].physical < w.n && env.create(w.created[i].physical))
    && (forall i, j | 0 <= i < j < |w.created| :: w.created[i].physical < w.created[j].physical)
    && w.recorded == Kept(env, w.created)
  }

  lemma CreateOneEffect(env: Env, t: Template, w: World, logical: string)
    requires logical in t && WorldInv(env, t, w)
    ensures var (v, ok) := CreateOne(env, t, w, logical);
            && WorldInv(env, t, v)
            && (if ok
                then Logicals(v.created) == Logicals(w.created) + [logical] && v.created[..|w.created|] == w.created
                else v.created == w.created && v.refs == w.refs)
  {
    hide Properties, Creatable, Kept;
    var (v, ok) := CreateOne(env, t, w, logical);
    if ok {
      assert v.created[..|w.created|] == w.created;
      KeptStep(env, w.created, v.created[|w.created|]);
    }
  }

  lemma KeptStep(env: Env, cs: seq<Created>, c: Created)
    ensures Kept(env, cs + [c]) == Kept(env, cs) + (if env.record(c.physical) then [c] else [])
  {
    assert (cs + [c])[..|cs|] == cs;
  }

  /** Creation runs through a prefix of the work list: all of it exactly when it succeeds. */
  lemma {:induction false} CreatesAPrefix(env: Env, t: Template, w: World, work: seq<string>)
    requires (forall i | 0 <= i < |work| :: work[i] in t) && WorldInv(env, t, w)
    ensures var (v, ok) := CreateAll(env, t, w, work);
            && WorldInv(env, t, v)
            && |w.created| <= |v.created| <= |w.created| + |work|
            && Logicals(v.created) == Logicals(w.created) + work[..|v.created| - |w.created|]
            && (ok <==> |v.created| == |w.created| + |work|)
    decreases work
  {
    hide CreateOne, WorldInv;
    if work != [] {
      CreateOneEffect(env, t, w, work[0]);
      var (v, ok) := CreateOne(env, t, w, work[0]);
      if ok {
        CreatesAPrefix(env, t, v, work[1..]);
        var u := CreateAll(env, t, v, work[1..]).0;
        var m := |u.created| - |v.created|;
        assert work[..m + 1] == [work[0]] + work[1..][..m];
      }
    }
  }

  /** For every order of walking the template and every failing call: the created resources follow the work list
      and stop at the first failure, so each template entry is created at most once and kinds come in the
      order VPC, Volume, Instance, Snapshot; the stack is CREATE_COMPLETE exactly when every entry of those
      kinds was created; and what is recorded is exactly what was created and could be recorded. */
  lemma CreationFollowsTemplate(env: Env, t: Template, orders: seq<seq<string>>)
    requires ValidOrders(orders, t)
    ensures var out := Process(env, Some(t), orders);
            var created := out.world.created;
            && Logicals(created) <= Work(t, orders)
            && NoRepeats(Logicals(created))
            && (forall i | 0 <= i < |created| ::
                  Wanted(t, created[i].logical) && created[i].kind == t[created[i].logical].kind)
            && (forall i, j | 0 <= i < j < |created| :: InOrder(created[i].kind, created[j].kind))
            && (forall i | 0 <= i < |created| :: env.create(created[i].physical))
            && (forall i, j | 0 <= i < j < |created| :: created[i].physical != created[j].physical)
            && (out.status == CreateComplete <==> forall k | Wanted(t, k) :: k in Logicals(created))
            && out.world.recorded == Kept(env, created)
  {
    hide CreateAll, Work, Rank, Kept;
    var out := Process(env, Some(t), orders);
    var work, created := Work(t, orders), out.world.created;
    WorkContents(t, orders);
    ProcessCreatesPrefix(env, t, orders);
    PrefixOfWork(t, work, created);
    if out.status != CreateComplete {
      var missing := work[|created|];
      assert missing in work && missing !in work[..|created|];
      assert Wanted(t, missing) && missing !in Logicals(created);
    }
  }

  lemma ProcessCreatesPrefix(env: Env, t: Template, orders: seq<seq<string>>)
    requires |orders| == 4
    ensures var out := Process(env, Some(t), orders);
            && WorldInv(env, t, out.world)
            && |out.world.created| <= |Work(t, orders)|
            && Logicals(out.world.created) == Work(t, orders)[..|out.world.created|]
            && (out.status == CreateComplete <==> |out.world.created| == |Work(t, orders)|)
  {
    hide CreateAll, Work;
    assert WorldInv(env, t, START) && Logicals(START.created) == [];
    CreatesAPrefix(env, t, START, Work(t, orders));
  }

  /** A created list whose names are a prefix of the work inherits its order and its lack of repeats. */
  lemma PrefixOfWork(t: Template, work: seq<string>, created: seq<Created>)
    requires |created| <= |work| && Logicals(created) == work[..|created|]
    requires NoRepeats(work) && ByRank(t, work) && forall k | k in work :: Wanted(t, k)
    requires forall i | 0 <= i < |created| :: created[i].logical in t && created[i].kind == t[created[i].logical].kind
    ensures NoRepeats(Logicals(created))
    ensures forall i | 0 <= i < |created| :: Wanted(t, created[i].logical)
    ensures forall i, j | 0 <= i < j < |created| :: InOrder(created[i].kind, created[j].kind)
    ensures |created| == |work| ==> forall k | k in work :: k in Logicals(created)
  {
    forall i | 0 <= i < |created| ensures created[i].logical == work[i] && work[i] in work {
      assert Logicals(created)[i] == work[i];
    }
  }

  // ---------------------------------------------------------------- rollback

  lemma {:induction false} KeptAll(env: Env, cs: seq<Created>)
    requires forall i :: env.record(i)
    ensures Kept(env, cs) == cs
  {
    if cs != [] { KeptAll(env, cs[..|cs| - 1]); }
  }

  /** A stack that was not completed is rolled back: when the recorded resources can be listed, each is deleted
      once, in exact reverse order of creation; the rollback fails only if listing or clearing does. If every
      recording succeeded that is every resource created. */
  lemma RollbackReverses(env: Env, t: Template, orders: seq<seq<string>>)
    requires |orders| == 4
    requires Process(env, Some(t), orders).status != CreateComplete
    ensures var out := Process(env, Some(t), orders);
            var recorded := out.world.recorded;
            && (env.list ==>
                  && |out.deleted| == |recorded|
                  && forall i | 0 <= i < |recorded| :: out.deleted[i] == recorded[|recorded| - 1 - i])
            && (!env.list ==> out.deleted == [])
            && out.status == (if env.list && env.clear then RollbackComplete else RollbackFailed)
            && ((forall i :: env.record(i)) ==> recorded == out.world.created)
  {
    hide CreateAll, Work, Kept, Rank;
    var out := Process(env, Some(t), orders);
    ProcessCreatesPrefix(env, t, orders);
    if forall i :: env.record(i) { KeptAll(env, out.world.created); }
  }

  // ---------------------------------------------------------------- references

  predicate Early(kind: Kind) { kind.Vpc? || kind.Volume? }

  predicate Late(kind: Kind) { kind.Instance? || kind.Snapshot? }

  /** The reference table that a list of creations leaves: snapshots are not entered. */
  function TableOf(cs: seq<Created>): map<string, nat> {
    if cs == [] then map[]
    else
      var before, last := TableOf(cs[..|cs| - 1]), cs[|cs| - 1];
      if last.kind.Snapshot? then before else before[last.logical := last.physical]
  }

  /** Instances and snapshots get their properties with the references resolved that the creations before them make
      resolvable. */
  ghost predicate SeesEarlier(t: Template, cs: seq<Created>, i: nat)
    requires i < |cs|
  {
    && cs[i].logical in t && cs[i].kind == t[cs[i].logical].kind
    && cs[i].properties == (if Late(cs[i].kind) then ResolveRefs(t[cs[i].logical].properties, TableOf(cs[..i]))
                            else t[cs[i].logical].properties)
  }

  ghost predicate RefsInv(t: Template, w: World) {
    w.refs == TableOf(w.created) && forall i | 0 <= i < |w.created| :: SeesEarlier(t, w.created, i)
  }

  lemma SeesEarlierStill(t: Template, cs: seq<Created>, c: Created, i: nat)
    requires i < |cs| && SeesEarlier(t, cs, i)
    ensures SeesEarlier(t, cs + [c], i)
  {
    hide TableOf, ResolveRefs;
    assert (cs + [c])[..i] == cs[..i] && (cs + [c])[i] == cs[i];
  }

  lemma TableAppend(cs: seq<Created>, c: Created)
    ensures TableOf(cs + [c]) == if c.kind.Snapshot? then TableOf(cs) else TableOf(cs)[c.logical := c.physical]
  {
    assert (cs + [c])[..|cs|] == cs;
  }

  lemma CreateOneKeepsRefs(env: Env, t: Template, w: World, logical: string)
    requires logical in t && RefsInv(t, w)
    ensures RefsInv(t, CreateOne(env, t, w, logical).0)
  {
    hide TableOf, ResolveRefs, Creatable;
    var (v, ok) := CreateOne(env, t, w, logical);
    if ok {
      var c := Created(logical, t[logical].kind, w.n, Properties(w, t[logical]));
      assert v.created == w.created + [c] && v.created[..|w.created|] == w.created;
      TableAppend(w.created, c);
      assert SeesEarlier(t, v.created, |w.created|);
      hide SeesEarlier;
      forall i | 0 <= i < |w.created| ensures SeesEarlier(t, v.created, i) { SeesEarlierStill(t, w.created, c, i); }
    }
  }

  lemma {:induction false} CreateAllKeepsRefs(env: Env, t: Template, w: World, work: seq<string>)
    requires (forall i | 0 <= i < |work| :: work[i] in t) && RefsInv(t, w)
    ensures RefsInv(t, CreateAll(env, t, w, work).0)
    decreases work
  {
    if work != [] {
      hide RefsInv, CreateOne;
      CreateOneKeepsRefs(env, t, w, work[0]);
      CreateAllKeepsRefs(env, t, CreateOne(env, t, w, work[0]).0, work[1..]);
    }
  }

  lemma {:induction false} InTable(cs: seq<Created>, j: nat)
    requires NoRepeats(Logicals(cs)) && j < |cs| && !cs[j].kind.Snapshot?
    ensures cs[j].logical in TableOf(cs) && TableOf(cs)[cs[j].logical] == cs[j].physical
  {
    var init := cs[..|cs| - 1];
    if j < |cs| - 1 {
      assert Logicals(cs)[j] != Logicals(cs)[|cs| - 1];
      assert NoRepeats(Logicals(init)) by { assert Logicals(init) == Logicals(cs)[..|cs| - 1]; }
      InTable(init, j);
    }
  }

  lemma {:induction false} FromTable(cs: seq<Created>, k: string) returns (j: nat)
    requires k in TableOf(cs)
    ensures j < |cs| && cs[j].logical == k && !cs[j].kind.Snapshot?
  {
    var last := cs[|cs| - 1];
    if last.logical == k && !last.kind.Snapshot? { j := |cs| - 1; } else { j := FromTable(cs[..|cs| - 1], k); }
  }

  /** Property `key` of `logical` is a reference to `k`. */
  ghost predicate Refers(t: Template, logical: string, key: string, k: string) {
    logical in t && key in t[logical].properties && IsReference(t[logical].properties[key], k)
  }

  /** Among the creations before the one numbered `i` is that of `k`, and `k` is no snapshot. */
  ghost predicate Earlier(cs: seq<Created>, i: nat, k: string)
    requires i <= |cs|
  {
    exists j :: 0 <= j < i && cs[j].logical == k && !cs[j].kind.Snapshot?
  }

  lemma PropertyOf(t: Template, cs: seq<Created>, i: nat, key: string, k: string)
    requires NoRepeats(Logicals(cs)) && i < |cs| && SeesEarlier(t, cs, i)
    requires Late(cs[i].kind) && Refers(t, cs[i].logical, key, k)
    ensures key in cs[i].properties
    ensures forall j | 0 <= j < i && cs[j].logical == k && !cs[j].kind.Snapshot? ::
              cs[i].properties[key] == Physical(cs[j].physical)
    ensures !Earlier(cs, i, k) ==> cs[i].properties[key] == t[cs[i].logical].properties[key]
  {
    var before := cs[..i];
    assert NoRepeats(Logicals(before)) by { assert Logicals(before) == Logicals(cs)[..i]; }
    forall j | 0 <= j < i && cs[j].logical == k && !cs[j].kind.Snapshot?
      ensures cs[i].properties[key] == Physical(cs[j].physical)
    {
      assert before[j] == cs[j];
      InTable(before, j);
    }
    if k in TableOf(before) {
      var j := FromTable(before, k);
      assert before[j] == cs[j];
    }
  }

  /** For every walking order and every failure: a reference of a created instance or snapshot is replaced by the
      identifier of the resource created under that name if there is one so far, snapshots excepted, and is left as
      written if there is none. */
  lemma ReferenceResolvedIff(env: Env, t: Template, orders: seq<seq<string>>, i: nat, key: string, k: string)
    requires ValidOrders(orders, t) && i < |Process(env, Some(t), orders).world.created|
    requires var c := Process(env, Some(t), orders).world.created[i];
             Late(c.kind) && Refers(t, c.logical, key, k)
    ensures var cs := Process(env, Some(t), orders).world.created;
            && key in cs[i].properties
            && (cs[i].properties[key].Physical? <==> Earlier(cs, i, k))
            && (forall j | 0 <= j < i && cs[j].logical == k && !cs[j].kind.Snapshot? ::
                  cs[i].properties[key] == Physical(cs[j].physical))
            && (!Earlier(cs, i, k) ==> cs[i].properties[key] == t[cs[i].logical].properties[key])
  {
    var cs := Process(env, Some(t), orders).world.created;
    CreationFollowsTemplate(env, t, orders);
    CreateAllKeepsRefs(env, t, START, Work(t, orders));
    hide CreateAll, Work;
    assert SeesEarlier(t, cs, i);
    PropertyOf(t, cs, i, key, k);
  }

  /** Everything else reaches the resource as the template has it: the same keys, every value that is not a reference,
      and every value of a VPC or volume. */
  lemma OtherPropertiesStay(env: Env, t: Template, orders: seq<seq<string>>, i: nat)
    requires ValidOrders(orders, t) && i < |Process(env, Some(t), orders).world.created|
    ensures var c := Process(env, Some(t), orders).world.created[i];
            && c.logical in t && c.properties.Keys == t[c.logical].properties.Keys
            && (!Late(c.kind) ==> c.properties == t[c.logical].properties)
            && forall key | key in c.properties && forall k :: !Refers(t, c.logical, key, k) ::
                 c.properties[key] == t[c.logical].properties[key]
  {
    var cs := Process(env, Some(t), orders).world.created;
    CreateAllKeepsRefs(env, t, START, Work(t, orders));
    hide CreateAll, Work;
    assert SeesEarlier(t, cs, i);
    forall key | key in cs[i].properties && RefOf(t[cs[i].logical].properties[key]).Some?
      ensures exists k :: Refers(t, cs[i].logical, key, k)
    {
      assert Refers(t, cs[i].logical, key, RefOf(t[cs[i].logical].properties[key]).value);
    }
  }

  /** The creations up to the one numbered `i` bear the first names of the work list. */
  lemma EarlierNames(env: Env, t: Template, orders: seq<seq<string>>, i: nat, k: string)
    requires ValidOrders(orders, t) && i < |Process(env, Some(t), orders).world.created|
    ensures var cs, work := Process(env, Some(t), orders).world.created, Work(t, orders);
            && i < |work| && cs[i].logical == work[i] && NoRepeats(work)
            && (Earlier(cs, i, k) <==> k in work[..i] && k in t && !t[k].kind.Snapshot?)
  {
    hide CreateAll, Work;
    var cs, work := Process(env, Some(t), orders).world.created, Work(t, orders);
    ProcessCreatesPrefix(env, t, orders);
    WorkContents(t, orders);
    forall j | 0 <= j < |cs| ensures cs[j].logical == work[j] && cs[j].logical in t {
      assert Logicals(cs)[j] == work[j];
    }
    if k in work[..i] {
      var j :| 0 <= j < i && work[j] == k;
      assert cs[j].logical == k;
    }
  }

  /** Whatever order the passes walk the template in: every instance and snapshot that gets created has each of
      its references to a VPC or volume of the template replaced by the identifier of the resource that was
      created for it. */
  lemma ReferencesResolve(env: Env, t: Template, orders: seq<seq<string>>, i: nat, key: string, k: string)
    requires ValidOrders(orders, t) && i < |Process(env, Some(t), orders).world.created|
    requires var c := Process(env, Some(t), orders).world.created[i];
             Late(c.kind) && Refers(t, c.logical, key, k) && k in t && Early(t[k].kind)
    ensures var cs := Process(env, Some(t), orders).world.created;
            && key in cs[i].properties
            && exists j :: 0 <= j < i && cs[j].logical == k && cs[i].properties[key] == Physical(cs[j].physical)
  {
    hide Process, Work;
    var cs, work := Process(env, Some(t), orders).world.created, Work(t, orders);
    ReferenceResolvedIff(env, t, orders, i, key, k);
    EarlierNames(env, t, orders, i, k);
    WorkContents(t, orders);
    ProcessCreatesPrefix(env, t, orders);
    assert k in work;
    var m :| 0 <= m < |work| && work[m] == k;
    assert m < i;
    assert k in work[..i] by { assert work[..i][m] == k; }
    var j :| 0 <= j < i && cs[j].logical == k && !cs[j].kind.Snapshot?;
  }

  /** A reference to a snapshot is never replaced. */
  lemma SnapshotReferenceStays(env: Env, t: Template, orders: seq<seq<string>>, i: nat, key: string, k: string)
    requires ValidOrders(orders, t) && i < |Process(env, Some(t), orders).world.created|
    requires var c := Process(env, Some(t), orders).world.created[i];
             Late(c.kind) && Refers(t, c.logical, key, k) && k in t && t[k].kind.Snapshot?
    ensures var cs := Process(env, Some(t), orders).world.created;
            key in cs[i].properties && cs[i].properties[key] == t[cs[i].logical].properties[key]
  {
    hide Process, Work;
    ReferenceResolvedIff(env, t, orders, i, key, k);
    EarlierNames(env, t, orders, i, k);
  }

  // ---------------------------------------------------------------- references among instances

  ghost predicate Before(s: seq<string>, a: string, b: string) {
    exists x, y :: 0 <= x < y < |s| && s[x] == a && s[y] == b
  }

  lemma BeforeCons(s: seq<string>, a: string, b: string)
    requires s != []
    ensures Before(s, a, b) <==> (s[0] == a && b in s[1..]) || Before(s[1..], a, b)
  {
    var tail := s[1..];
    if Before(s, a, b) {
      var x, y :| 0 <= x < y < |s| && s[x] == a && s[y] == b;
      assert tail[y - 1] == b;
      if x > 0 { assert tail[x - 1] == a; }
    }
    if s[0] == a && b in tail {
      var y :| 0 <= y < |tail| && tail[y] == b;
      assert s[0] == a && s[y + 1] == b;
    }
    if Before(tail, a, b) {
      var x, y :| 0 <= x < y < |tail| && tail[x] == a && tail[y] == b;
      assert s[x + 1] == a && s[y + 1] == b;
    }
  }

  /** Picking out one kind keeps the order. */
  lemma {:induction false} OfKindKeepsOrder(t: Template, order: seq<string>, kind: Kind, a: string, b: string)
    requires a in t && t[a].kind == kind && b in t && t[b].kind == kind
    ensures b in OfKind(t, order, kind) <==> b in order
    ensures Before(OfKind(t, order, kind), a, b) <==> Before(order, a, b)
  {
    if order != [] {
      var rest := OfKind(t, order[1..], kind);
      OfKindKeepsOrder(t, order[1..], kind, a, b);
      BeforeCons(order, a, b);
      if order[0] in t && t[order[0]].kind == kind {
        assert OfKind(t, order, kind)[1..] == rest;
        BeforeCons(OfKind(t, order, kind), a, b);
      }
    }
  }

  lemma BeforeMiddle(front: seq<string>, middle: seq<string>, back: seq<string>, a: string, b: string)
    requires a !in front && b !in front && a !in back && b !in back
    ensures Before(front + middle + back, a, b) <==> Before(middle, a, b)
  {
    var all := front + middle + back;
    if Before(all, a, b) {
      var x, y :| 0 <= x < y < |all| && all[x] == a && all[y] == b;
      assert x >= |front| && y < |front| + |middle|;
      assert middle[x - |front|] == a && middle[y - |front|] == b;
    }
    if Before(middle, a, b) {
      var x, y :| 0 <= x < y < |middle| && middle[x] == a && middle[y] == b;
      assert all[x + |front|] == a && all[y + |front|] == b;
    }
  }

  lemma BeforeInWork(t: Template, orders: seq<seq<string>>, a: string, b: string)
    requires |orders| == 4 && a in t && t[a].kind.Instance? && b in t && t[b].kind.Instance?
    ensures Before(Work(t, orders), a, b) <==> Before(orders[2], a, b)
  {
    hide OfKind, Before;
    var front := OfKind(t, orders[0], Vpc) + OfKind(t, orders[1], Volume);
    BeforeMiddle(front, OfKind(t, orders[2], Instance), OfKind(t, orders[3], Snapshot), a, b);
    OfKindKeepsOrder(t, orders[2], Instance, a, b);
  }

  lemma BeforeIsInPrefix(s: seq<string>, i: nat, k: string)
    requires NoRepeats(s) && i < |s|
    ensures Before(s, k, s[i]) <==> k in s[..i]
  {
    if k in s[..i] {
      var x :| 0 <= x < i && s[x] == k;
    }
  }

  /** A reference of a created instance to another instance of the template is replaced exactly when the map iteration
      of the instance pass happens to come to that one first. */
  lemma InstanceReferenceDependsOnOrder(
    env: Env, t: Template, orders: seq<seq<string>>, i: nat, key: string, k: string)
    requires ValidOrders(orders, t) && i < |Process(env, Some(t), orders).world.created|
    requires var c := Process(env, Some(t), orders).world.created[i];
             c.kind.Instance? && Refers(t, c.logical, key, k) && k in t && t[k].kind.Instance?
    ensures var c := Process(env, Some(t), orders).world.created[i];
            key in c.properties && (c.properties[key].Physical? <==> Before(orders[2], k, c.logical))
  {
    hide Process, Work, Before;
    ReferenceResolvedIff(env, t, orders, i, key, k);
    EarlierNames(env, t, orders, i, k);
    ProcessCreatesPrefix(env, t, orders);
    BeforeIsInPrefix(Work(t, orders), i, k);
    BeforeInWork(t, orders, k, Process(env, Some(t), orders).world.created[i].logical);
  }

  // ---------------------------------------------------------------- when creation completes

  /** Templates are decoded from text, so they contain no physical identifiers. */
  ghost predicate Plain(t: Template) {
    forall k, key | k in t && key in t[k].properties :: !t[k].properties[key].Physical?
  }

  predicate IsSource(t: Template, k: string) {
    k in t && (t[k].kind.Vpc? || t[k].kind.Volume? || t[k].kind.Instance?)
  }

  /** The snapshot's VolumeID is a reference to a VPC, volume or instance of the template. */
  ghost predicate NamesSource(t: Template, k: string)
    requires k in t
  {
    && "VolumeID" in t[k].properties
    && exists source :: IsReference(t[k].properties["VolumeID"], source) && IsSource(t, source)
  }

  lemma NamesSourceIff(t: Template, k: string)
    requires k in t
    ensures NamesSource(t, k) <==>
              && "VolumeID" in t[k].properties
              && var ref := RefOf(t[k].properties["VolumeID"]);
                 ref.Some? && ref.value in t && Rank(t[ref.value].kind) < 3
  {
    if "VolumeID" in t[k].properties && RefOf(t[k].properties["VolumeID"]).Some? {
      assert IsReference(t[k].properties["VolumeID"], RefOf(t[k].properties["VolumeID"]).value);
    }
  }

  /** A creation call is made for each piece of work in turn, from call `n` on; all of them succeed. */
  ghost predicate CallsSucceed(env: Env, n: nat, count: nat) { forall call | n <= call < n + count :: env.create(call) }

  /** Work without snapshots is all created, and named, exactly when its creation calls succeed. */
  lemma {:induction false} FirstPassesComplete(env: Env, t: Template, w: World, work: seq<string>)
    requires forall i | 0 <= i < |work| :: work[i] in t && Rank(t[work[i]].kind) < 3
    ensures var (v, ok) := CreateAll(env, t, w, work);
            && (ok <==> CallsSucceed(env, w.n, |work|))
            && (ok ==> v.n == w.n + |work| && forall k :: k in v.refs <==> k in w.refs || k in work)
    decreases work
  {
    if work != [] {
      hide Properties;
      var (v, ok) := CreateOne(env, t, w, work[0]);
      if ok {
        FirstPassesComplete(env, t, v, work[1..]);
        assert CallsSucceed(env, w.n, |work|) <==> CallsSucceed(env, v.n, |work| - 1);
        assert forall k :: k in work <==> k == work[0] || k in work[1..];
      } else {
        assert !env.create(w.n);
      }
    }
  }

  /** The table names exactly the VPCs, volumes and instances of the template. */
  ghost predicate TableFull(t: Template, refs: map<string, nat>) {
    forall k :: k in refs <==> k in t && Rank(t[k].kind) < 3
  }

  ghost predicate AllNameSources(t: Template, work: seq<string>)
    requires forall i | 0 <= i < |work| :: work[i] in t
  {
    forall i | 0 <= i < |work| :: NamesSource(t, work[i])
  }

  lemma SnapshotStep(env: Env, t: Template, w: World, k: string)
    requires Plain(t) && k in t && t[k].kind.Snapshot? && TableFull(t, w.refs)
    ensures var (v, ok) := CreateOne(env, t, w, k);
            && (ok <==> env.create(w.n) && NamesSource(t, k))
            && v.refs == w.refs && (ok ==> v.n == w.n + 1)
  {
    NamesSourceIff(t, k);
    hide NamesSource;
    assert Creatable(Snapshot, ResolveRefs(t[k].properties, w.refs)) <==> NamesSource(t, k);
  }

  lemma FirstAndRest(env: Env, t: Template, n: nat, work: seq<string>)
    requires work != [] && forall i | 0 <= i < |work| :: work[i] in t
    ensures CallsSucceed(env, n, |work|) <==> env.create(n) && CallsSucceed(env, n + 1, |work| - 1)
    ensures AllNameSources(t, work) <==> NamesSource(t, work[0]) && AllNameSources(t, work[1..])
  {
    hide NamesSource;
    assert forall i | 0 < i < |work| :: work[i] == work[1..][i - 1];
  }

  /** Snapshots do not change the table, so each succeeds or fails on its own call and its own VolumeID. */
  lemma {:induction false} SnapshotPassCompletes(env: Env, t: Template, w: World, work: seq<string>)
    requires Plain(t) && TableFull(t, w.refs)
    requires forall i | 0 <= i < |work| :: work[i] in t && t[work[i]].kind.Snapshot?
    ensures CreateAll(env, t, w, work).1 <==> CallsSucceed(env, w.n, |work|) && AllNameSources(t, work)
    decreases work
  {
    if work != [] {
      hide NamesSource, AllNameSources, CallsSucceed, TableFull, Plain, CreateOne;
      SnapshotStep(env, t, w, work[0]);
      FirstAndRest(env, t, w.n, work);
      if CreateOne(env, t, w, work[0]).1 {
        SnapshotPassCompletes(env, t, CreateOne(env, t, w, work[0]).0, work[1..]);
      }
    }
  }

  /** A stack completes if and only if the creation call of each entry to be created succeeds and each snapshot's
      VolumeID is a reference to a VPC, volume or instance of the template; a literal identifier never works. */
  lemma CompletesIff(env: Env, t: Template, orders: seq<seq<string>>)
    requires ValidOrders(orders, t) && Plain(t)
    ensures Process(env, Some(t), orders).status == CreateComplete <==>
              && CallsSucceed(env, 0, |Work(t, orders)|)
              && forall k | k in t && t[k].kind.Snapshot? :: NamesSource(t, k)
  {
    hide CreateAll, OfKind, Work, WorkUpTo, NamesSource, Plain, CallsSucceed;
    var first, snapshots := WorkUpTo(t, orders, 3), OfKind(t, orders[3], Snapshot);
    WorkUpToContents(t, orders, 3);
    assert Enumerates(orders[3], t);
    OfKindContents(t, orders[3], Snapshot);
    LastPass(t, orders);
    CreateAllConcat(env, t, START, first, snapshots);
    forall i | 0 <= i < |first| ensures first[i] in t && Rank(t[first[i]].kind) < 3 { assert first[i] in first; }
    FirstPassesComplete(env, t, START, first);
    CallsSplit(env, |first|, |snapshots|);
    var (v, ok) := CreateAll(env, t, START, first);
    if ok {
      SnapshotPassCompletes(env, t, v, snapshots);
      forall k | k in t && t[k].kind.Snapshot? ensures k in snapshots {}
    }
  }

  lemma CallsSplit(env: Env, m: nat, n: nat)
    ensures CallsSucceed(env, 0, m + n) <==> CallsSucceed(env, 0, m) && CallsSucceed(env, m, n)
  {
  }

  lemma LastPass(t: Template, orders: seq<seq<string>>)
    requires |orders| == 4
    ensures Work(t, orders) == WorkUpTo(t, orders, 3) + OfKind(t, orders[3], Snapshot)
  {
    WorkUpToAll(t, orders);
    hide OfKind, Work;
  }
}
