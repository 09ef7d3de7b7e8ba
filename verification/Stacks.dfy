/** Stack creation from a template, in four passes over an unordered map, with rollback. */
module Stacks {
  import opened Options

  // ---------------------------------------------------------------- templates

  /** A decoded YAML value; physical identifiers appear only where a reference was resolved. */
  datatype Value =
    | Text(text: string)
    | Number(number: int)
    | Table(entries: map<string, Value>)
    | Physical(id: nat)
    | Other

  /** The four type strings that stacks create resources for, and any other. */
  datatype Kind = Vpc | Volume | Instance | Snapshot | Unsupported(name: string)

  datatype Resource = Resource(kind: Kind, properties: map<string, Value>)

  type Template = map<string, Resource>

  /** Number of the pass that creates a kind; no pass creates an unsupported one. */
  function Rank(kind: Kind): nat {
    match kind
    case Vpc => 0
    case Volume => 1
    case Instance => 2
    case Snapshot => 3
    case Unsupported(_) => 4
  }

  const KINDS := [Vpc, Volume, Instance, Snapshot]

  /** The logical name a property refers to, if it is a table with a string under "Ref". */
  function RefOf(v: Value): Option<string> {
    if v.Table? && "Ref" in v.entries && v.entries["Ref"].Text? then Some(v.entries["Ref"].text) else None
  }

  /** The value is a table that has the string `k` under "Ref". */
  ghost predicate IsReference(v: Value, k: string) {
    v.Table? && "Ref" in v.entries && v.entries["Ref"] == Text(k)
  }

  function Resolve(v: Value, refs: map<string, nat>): Value {
    if RefOf(v).Some? && RefOf(v).value in refs then Physical(refs[RefOf(v).value]) else v
  }

  function ResolveRefs(properties: map<string, Value>, refs: map<string, nat>): map<string, Value> {
    map k | k in properties :: Resolve(properties[k], refs)
  }

  // ---------------------------------------------------------------- one creation at a time

  /** What creating and recording return, by call number, and whether listing and clearing the recorded
      resources succeed. */
  datatype Env = Env(create: nat -> bool, record: nat -> bool, list: bool, clear: bool)

  datatype Created = Created(logical: string, kind: Kind, physical: nat, properties: map<string, Value>)

  datatype World = World(created: seq<Created>, recorded: seq<Created>, refs: map<string, nat>, n: nat)

  /** Later kinds see their references resolved; earlier ones get their properties as written. */
  function Properties(w: World, r: Resource): map<string, Value> {
    if r.kind.Instance? || r.kind.Snapshot? then ResolveRefs(r.properties, w.refs) else r.properties
  }

  /** A snapshot needs a volume that was referred to by name. */
  predicate Creatable(kind: Kind, properties: map<string, Value>) {
    kind.Snapshot? ==> "VolumeID" in properties && properties["VolumeID"].Physical?
  }

  function CreateOne(env: Env, t: Template, w: World, logical: string): (World, bool)
    requires logical in t
  {
    var r := t[logical];
    var properties := Properties(w, r);
    if !Creatable(r.kind, properties) then (w, false)
    else if !env.create(w.n) then (w.(n := w.n + 1), false)
    else
      var c := Created(logical, r.kind, w.n, properties);
      (World(w.created + [c],
             if env.record(w.n) then w.recorded + [c] else w.recorded,
             if r.kind.Snapshot? then w.refs else w.refs[logical := w.n],
             w.n + 1), true)
  }

  /** Create from left to right, up to the first failure. */
  function CreateAll(env: Env, t: Template, w: World, work: seq<string>): (World, bool)
    requires forall i | 0 <= i < |work| :: work[i] in t
    decreases work
  {
    if work == [] then (w, true)
    else
      var (v, ok) := CreateOne(env, t, w, work[0]);
      if ok then CreateAll(env, t, v, work[1..]) else (v, false)
  }

  function OfKind(t: Template, order: seq<string>, kind: Kind): (r: seq<string>)
    ensures forall i | 0 <= i < |r| :: r[i] in t && t[r[i]].kind == kind && r[i] in order
  {
    if order == [] then []
    else
      var rest := OfKind(t, order[1..], kind);
      if order[0] in t && t[order[0]].kind == kind then [order[0]] + rest else rest
  }

  /** Everything the four passes would create, given the order in which each walks the template. */
  function Work(t: Template, orders: seq<seq<string>>): (r: seq<string>)
    requires |orders| == 4
    ensures forall i | 0 <= i < |r| :: r[i] in t
  {
    OfKind(t, orders[0], Vpc) + OfKind(t, orders[1], Volume)
    + OfKind(t, orders[2], Instance) + OfKind(t, orders[3], Snapshot)
  }

  const START := World([], [], map[], 0)

  datatype Status = CreateInProgress | CreateComplete | CreateFailed | RollbackComplete | RollbackFailed

  /** Newest first. */
  function Backwards<T>(s: seq<T>): seq<T> { seq(|s|, i requires 0 <= i < |s| => s[|s| - 1 - i]) }

  /** The final status, all that was created, and the deletions a rollback asked for, in order. */
  datatype Outcome = Outcome(status: Status, world: World, deleted: seq<Created>)

  function Process(env: Env, parsed: Option<Template>, orders: seq<seq<string>>): Outcome
    requires |orders| == 4
  {
    if parsed.None? then Outcome(CreateFailed, START, [])
    else
      var (w, ok) := CreateAll(env, parsed.value, START, Work(parsed.value, orders));
      if ok then Outcome(CreateComplete, w, [])
      else if !env.list then Outcome(RollbackFailed, w, [])
      else Outcome(if env.clear then RollbackComplete else RollbackFailed, w, Backwards(w.recorded))
  }

  // ---------------------------------------------------------------- the service, loop by loop

  class StackService {
    const env: Env
    var created: seq<Created>
    var recorded: seq<Created>
    var refs: map<string, nat>
    var n: nat
    var status: Status
    var deleted: seq<Created>

    ghost function View(): World
      reads this
    {
      World(created, recorded, refs, n)
    }

    constructor (env: Env)
      ensures this.env == env && View() == START && status == CreateInProgress && deleted == []
    {
      this.env := env;
      created, recorded, refs, n := [], [], map[], 0;
      status, deleted := CreateInProgress, [];
    }

    method ResolveReferences(properties: map<string, Value>) returns (r: map<string, Value>)
      ensures r == ResolveRefs(properties, refs)
      ensures r.Keys == properties.Keys
      ensures forall key | key in properties ::
                if exists k :: IsReference(properties[key], k) && k in refs
                then forall k | IsReference(properties[key], k) :: k in refs && r[key] == Physical(refs[k])
                else r[key] == properties[key]
    {
      r := map[];
      var todo := properties.Keys;
      while todo != {}
        invariant todo <= properties.Keys
        invariant r == ResolveRefs(properties - todo, refs)
        decreases todo
      {
        var k :| k in todo;
        todo := todo - {k};
        var ref := RefOf(properties[k]);
        if ref.Some? && ref.value in refs {
          r := r[k := Physical(refs[ref.value])];
        } else {
          r := r[k := properties[k]];
        }
      }
      assert properties - todo == properties;
      forall key | key in properties ensures r[key] == Resolve(properties[key], refs) {}
    }

    method Create(t: Template, logical: string) returns (ok: bool)
      requires logical in t
      modifies this`created, this`recorded, this`refs, this`n
      ensures (View(), ok) == CreateOne(env, t, old(View()), logical)
    {
      var r := t[logical];
      var properties := r.properties;
      if r.kind.Instance? || r.kind.Snapshot? {
        properties := ResolveReferences(properties);
      }
      if r.kind.Snapshot? && !("VolumeID" in properties && properties["VolumeID"].Physical?) { return false; }
      var id := n;
      n := n + 1;
      if !env.create(id) { return false; }
      var c := Created(logical, r.kind, id, properties);
      created := created + [c];
      if env.record(id) { recorded := recorded + [c]; }
      if !r.kind.Snapshot? { refs := refs[logical := id]; }
      return true;
    }

    /** One pass: walk the template in some order and create the resources of one kind. */
    method Pass(t: Template, order: seq<string>, kind: Kind) returns (ok: bool)
      requires forall i | 0 <= i < |order| :: order[i] in t
      modifies this`created, this`recorded, this`refs, this`n
      ensures (View(), ok) == CreateAll(env, t, old(View()), OfKind(t, order, kind))
    {
      ghost var w := View();
      for i := 0 to |order|
        invariant CreateAll(env, t, View(), OfKind(t, order[i..], kind)) == CreateAll(env, t, w, OfKind(t, order, kind))
      {
        assert order[i..][1..] == order[i + 1..];
        if t[order[i]].kind == kind {
          assert OfKind(t, order[i..], kind)[1..] == OfKind(t, order[i + 1..], kind);
          ok := Create(t, order[i]);
          if !ok { return; }
        }
      }
      return true;
    }

    method RollbackStack() returns (ok: bool)
      requires deleted == []
      modifies this`deleted
      ensures deleted == if env.list then Backwards(recorded) else []
      ensures ok == (env.list && env.clear)
    {
      if !env.list { return false; }
      var i := |recorded| - 1;
      while i >= 0
        invariant -1 <= i < |recorded|
        invariant deleted == Backwards(recorded)[..|recorded| - 1 - i]
      {
        deleted := deleted + [recorded[i]];
        i := i - 1;
      }
      return env.clear;
    }

    /** `orders` is the order in which each of the four loops over the resource map happens to walk it. */
    method ProcessStack(parsed: Option<Template>, orders: seq<seq<string>>)
      requires |orders| == 4 && View() == START && deleted == []
      requires parsed.Some? ==> forall p, i | 0 <= p < 4 && 0 <= i < |orders[p]| :: orders[p][i] in parsed.value
      modifies this
      ensures Outcome(status, View(), deleted) == Process(env, parsed, orders)
      ensures parsed.None? ==> status == CreateFailed && created == [] && deleted == []
    {
      hide CreateAll, OfKind, Work, Backwards;
      if parsed.None? {
        status := CreateFailed;
        return;
      }
      var t := parsed.value;
      ghost var done: seq<string> := [];
      NothingToCreate(env, t);
      for p := 0 to 4
        invariant deleted == [] && done == WorkUpTo(t, orders, p)
        invariant CreateAll(env, t, START, done) == (View(), true)
      {
        assert WorkUpTo(t, orders, p + 1) == WorkUpTo(t, orders, p) + OfKind(t, orders[p], KINDS[p]);
        var ok := Pass(t, orders[p], KINDS[p]);
        CreateAllConcat(env, t, START, done, OfKind(t, orders[p], KINDS[p]));
        done := done + OfKind(t, orders[p], KINDS[p]);
        if !ok {
          StaysFailed(env, t, orders, p + 1);
          var rolledBack := RollbackStack();
          status := if rolledBack then RollbackComplete else RollbackFailed;
          return;
        }
      }
      WorkUpToAll(t, orders);
      status := CreateComplete;
    }
  }

  lemma NothingToCreate(env: Env, t: Template)
    ensures CreateAll(env, t, START, []) == (START, true)
  {
  }

  /** The work of the first `p` passes. */
  function WorkUpTo(t: Template, orders: seq<seq<string>>, p: nat): (r: seq<string>)
    requires |orders| == 4 && p <= 4
    ensures forall i | 0 <= i < |r| :: r[i] in t
  {
    if p == 0 then [] else WorkUpTo(t, orders, p - 1) + OfKind(t, orders[p - 1], KINDS[p - 1])
  }

  lemma WorkUpToAll(t: Template, orders: seq<seq<string>>)
    requires |orders| == 4
    ensures WorkUpTo(t, orders, 4) == Work(t, orders)
  {
    assert WorkUpTo(t, orders, 1) == OfKind(t, orders[0], Vpc);
    assert WorkUpTo(t, orders, 2) == WorkUpTo(t, orders, 1) + OfKind(t, orders[1], Volume);
    assert WorkUpTo(t, orders, 3) == WorkUpTo(t, orders, 2) + OfKind(t, orders[2], Instance);
  }

  lemma {:induction false} CreateAllConcat(env: Env, t: Template, w: World, a: seq<string>, b: seq<string>)
    requires forall i | 0 <= i < |a| :: a[i] in t
    requires forall i | 0 <= i < |b| :: b[i] in t
    ensures var (v, ok) := CreateAll(env, t, w, a);
            CreateAll(env, t, w, a + b) == if ok then CreateAll(env, t, v, b) else (v, false)
    decreases a
  {
    if a == [] {
      assert a + b == b;
    } else {
      assert (a + b)[1..] == a[1..] + b;
      CreateAllConcat(env, t, CreateOne(env, t, w, a[0]).0, a[1..], b);
    }
  }

  lemma {:induction false} StaysFailed(env: Env, t: Template, orders: seq<seq<string>>, p: nat)
    requires |orders| == 4 && p <= 4 && !CreateAll(env, t, START, WorkUpTo(t, orders, p)).1
    ensures CreateAll(env, t, START, Work(t, orders)) == CreateAll(env, t, START, WorkUpTo(t, orders, p))
    decreases 4 - p
  {
    if p == 4 {
      WorkUpToAll(t, orders);
    } else {
      CreateAllConcat(env, t, START, WorkUpTo(t, orders, p), OfKind(t, orders[p], KINDS[p]));
      StaysFailed(env, t, orders, p + 1);
    }
  }
}
