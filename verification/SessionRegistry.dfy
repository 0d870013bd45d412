/**
  All proxied sessions of one radio over their whole life: the shared registry of clients,
  the pans and slices each session owns, and the clean-up when a session ends.  Registering,
  unregistering and the "anybody left?" check are separate steps under the registry's lock,
  so sessions interleave between them.  Handles are in upper case, as the source stores them.
  `clients` changes by the same functions as the map of `RadioContext.Registry`.
*/
module SessionRegistry {
  import opened Text
  import RadioContext

  datatype Resource = Pan(id: string) | Slice(id: string)

  /**
    Where a session's main goroutine is: reading the radio's lines; between learning its
    handle and registering; past the loop; past unregistering, with something to clean up;
    removing what is left to remove; done with clean-up; radio connection closed.
  */
  datatype Phase = Running | Naming | Leaving | Checking | Removing(todo: set<Resource>) | Finishing | Closed

  /** `issued` are the removal commands written; `sawEmpty`, history, is the outcome of the check. */
  datatype Session = Session(phase: Phase, handle: Option<string>, owned: set<Resource>,
                             issued: set<Resource>, sawEmpty: bool)

  datatype State = State(sessions: map<nat, Session>, clients: map<string, nat>)

  /** `Owner` is a line of the radio that names the handle a pan or slice belongs to. */
  datatype Event =
    | Connect(id: nat) | Name(id: nat, handle: string) | Register(id: nat)
    | Owner(id: nat, r: Resource, handle: string)
    | Leave(id: nat) | Unregister(id: nat) | Check(id: nat) | Remove(id: nat, r: Resource)
    | Finish(id: nat) | Close(id: nat)

  const INITIAL: State := State(map[], map[])
  const NEW_SESSION: Session := Session(Running, None, {}, {}, false)

  ghost predicate At(s: State, id: nat, p: Phase) {
    id in s.sessions && s.sessions[id].phase == p
  }

  /** The session has not unregistered yet. */
  predicate Live(x: Session) {
    x.phase.Running? || x.phase.Naming? || x.phase.Leaving?
  }

  /** The radio gives no session the handle of another one that has not unregistered yet. */
  ghost predicate Unused(s: State, h: string) {
    forall id :: id in s.sessions && Live(s.sessions[id]) ==> s.sessions[id].handle != Some(h)
  }

  ghost predicate Enabled(s: State, e: Event) {
    match e
    case Connect(id) => id !in s.sessions
    case Name(id, h) => At(s, id, Running) && s.sessions[id].handle.None? && Unused(s, h)
    case Register(id) => At(s, id, Naming)
    case Owner(id, r, h) => At(s, id, Running)
    case Leave(id) => At(s, id, Running)
    case Unregister(id) => At(s, id, Leaving)
    case Check(id) => At(s, id, Checking)
    case Remove(id, r) =>
      && id in s.sessions && s.sessions[id].phase.Removing? && r in s.sessions[id].phase.todo
      && (r.Slice? ==> forall q :: q in s.sessions[id].phase.todo ==> q.Slice?)
    case Finish(id) => At(s, id, Removing({}))
    case Close(id) => At(s, id, Finishing)
  }

  /** What the step makes of the session that takes it. */
  ghost function Moved(s: State, e: Event): Session
    requires Enabled(s, e)
  {
    match e
    case Connect(id) => NEW_SESSION
    case Name(id, h) => s.sessions[id].(handle := Some(h), phase := Naming)
    case Register(id) => s.sessions[id].(phase := Running)
    case Owner(id, r, h) =>
      var x := s.sessions[id];
      if x.handle == Some(h) then x.(owned := x.owned + {r}) else x
    case Leave(id) => s.sessions[id].(phase := Leaving)
    case Unregister(id) =>
      var x := s.sessions[id];
      x.(phase := if x.handle.None? || x.owned == {} then Finishing else Checking)
    case Check(id) =>
      var x := s.sessions[id];
      x.(phase := if s.clients != map[] then Finishing else Removing(x.owned), sawEmpty := s.clients == map[])
    case Remove(id, r) =>
      var x := s.sessions[id];
      x.(phase := Removing(x.phase.todo - {r}), issued := x.issued + {r})
    case Finish(id) => s.sessions[id].(phase := Finishing)
    case Close(id) => s.sessions[id].(phase := Closed)
  }

  ghost function AfterUnregister(s: State, x: Session): map<string, nat> {
    match x.handle case None => s.clients case Some(h) => RadioContext.DropClient(s.clients, h)
  }

  ghost function Apply(s: State, e: Event): State
    requires Enabled(s, e)
  {
    var t := s.(sessions := s.sessions[e.id := Moved(s, e)]);
    match e
    case Register(id) =>
      if s.sessions[id].handle.Some? then
        t.(clients := RadioContext.AddClient(s.clients, s.sessions[id].handle.value, id))
      else t
    case Unregister(id) => t.(clients := AfterUnregister(s, s.sessions[id]))
    case _ => t
  }

  ghost predicate Runs(es: seq<Event>, s: State) {
    if es == [] then s == INITIAL
    else
      var n := |es| - 1;
      exists t :: Runs(es[..n], t) && Enabled(t, es[n]) && s == Apply(t, es[n])
  }

  // ---------- invariant ----------

  /** Seen its H-line, registered, and not yet unregistered. */
  predicate Registered(x: Session) {
    x.handle.Some? && (x.phase.Running? || x.phase.Leaving?)
  }

  ghost predicate RegistryExact(s: State) {
    && (forall h :: h in s.clients ==>
          && s.clients[h] in s.sessions && Registered(s.sessions[s.clients[h]])
          && s.sessions[s.clients[h]].handle == Some(h))
    && (forall id :: id in s.sessions && Registered(s.sessions[id]) ==>
          s.sessions[id].handle.value in s.clients && s.clients[s.sessions[id].handle.value] == id)
  }

  predicate DifferentHandles(x: Session, y: Session) {
    !Live(x) || !Live(y) || x.handle.None? || x.handle != y.handle
  }

  ghost predicate HandlesUnique(s: State) {
    forall i, j :: i in s.sessions && j in s.sessions && i != j ==> DifferentHandles(s.sessions[i], s.sessions[j])
  }

  /** Once a slice is removed no pan is left to remove. */
  ghost predicate PansDone(issued: set<Resource>, todo: set<Resource>) {
    forall p, q :: p in issued && q in todo ==> p.Pan? || q.Slice?
  }

  /** What one session has issued, by phase. */
  ghost predicate Progress(x: Session) {
    && (x.handle.None? ==> x.owned == {})
    && match x.phase
       case Running => x.issued == {} && !x.sawEmpty
       case Naming => x.issued == {} && !x.sawEmpty && x.handle.Some?
       case Leaving => x.issued == {} && !x.sawEmpty
       case Checking => x.issued == {} && !x.sawEmpty && x.handle.Some? && x.owned != {}
       case Removing(todo) =>
         x.sawEmpty && x.issued + todo == x.owned && x.issued !! todo && x.handle.Some? && PansDone(x.issued, todo)
       case Finishing => x.issued == if x.sawEmpty then x.owned else {}
       case Closed => x.issued == if x.sawEmpty then x.owned else {}
  }

  ghost predicate Inv(s: State) {
    && RegistryExact(s) && HandlesUnique(s)
    && forall id :: id in s.sessions ==> Progress(s.sessions[id])
  }

  lemma RegisterExact(s: State, id: nat)
    requires Inv(s) && Enabled(s, Register(id))
    ensures RegistryExact(Apply(s, Register(id)))
  {
    var t := Apply(s, Register(id));
    assert Progress(s.sessions[id]);
    forall j | j in t.sessions && j != id && Registered(t.sessions[j])
      ensures t.sessions[j].handle.value in t.clients && t.clients[t.sessions[j].handle.value] == j
    {
      assert DifferentHandles(s.sessions[j], s.sessions[id]);
    }
  }

  lemma UnregisterExact(s: State, id: nat)
    requires Inv(s) && Enabled(s, Unregister(id))
    ensures RegistryExact(Apply(s, Unregister(id)))
  {
    var x, y, t := s.sessions[id], Moved(s, Unregister(id)), Apply(s, Unregister(id));
    assert t.clients == AfterUnregister(s, x) && !Registered(y);
    assert x.handle.Some? ==> x.handle.value !in t.clients;
    forall j | j in t.sessions && Registered(t.sessions[j])
      ensures t.sessions[j].handle.value in t.clients && t.clients[t.sessions[j].handle.value] == j
    {
      assert j != id && DifferentHandles(s.sessions[j], x);
    }
  }

  /** Every other step leaves the registry, and who should be in it, as they were. */
  lemma QuietMove(s: State, e: Event)
    requires Inv(s) && Enabled(s, e) && !e.Register? && !e.Unregister?
    ensures Apply(s, e).clients == s.clients
    ensures Registered(Moved(s, e)) <==> e.id in s.sessions && Registered(s.sessions[e.id])
    ensures Registered(Moved(s, e)) ==> Moved(s, e).handle == s.sessions[e.id].handle
  {
  }

  lemma QuietExact(s: State, e: Event)
    requires Inv(s) && Enabled(s, e) && !e.Register? && !e.Unregister?
    ensures RegistryExact(Apply(s, e))
  {
    var t, y := Apply(s, e), Moved(s, e);
    QuietMove(s, e);
    StaysExact(s, t, e.id, y);
  }

  lemma StaysExact(s: State, t: State, id: nat, y: Session)
    requires RegistryExact(s) && t.sessions == s.sessions[id := y] && t.clients == s.clients
    requires Registered(y) <==> id in s.sessions && Registered(s.sessions[id])
    requires Registered(y) ==> y.handle == s.sessions[id].handle
    ensures RegistryExact(t)
  {
  }

  lemma RegistryStep(s: State, e: Event)
    requires Inv(s) && Enabled(s, e)
    ensures RegistryExact(Apply(s, e))
  {
    match e
    case Register(id) => RegisterExact(s, id);
    case Unregister(id) => UnregisterExact(s, id);
    case _ => QuietExact(s, e);
  }

  lemma MovedDiffers(s: State, e: Event, j: nat)
    requires Inv(s) && Enabled(s, e) && j in s.sessions && j != e.id
    ensures DifferentHandles(Moved(s, e), s.sessions[j]) && DifferentHandles(s.sessions[j], Moved(s, e))
  {
    if !e.Connect? {
      assert DifferentHandles(s.sessions[e.id], s.sessions[j]);
    }
  }

  lemma UniqueStep(s: State, e: Event)
    requires Inv(s) && Enabled(s, e)
    ensures HandlesUnique(Apply(s, e))
  {
    var t := Apply(s, e);
    assert t.sessions == s.sessions[e.id := Moved(s, e)];
    forall i, j | i in t.sessions && j in t.sessions && i != j ensures DifferentHandles(t.sessions[i], t.sessions[j]) {
      if i == e.id { MovedDiffers(s, e, j); } else if j == e.id { MovedDiffers(s, e, i); }
    }
  }

  lemma MovedProgress(s: State, e: Event)
    requires Inv(s) && Enabled(s, e)
    ensures Progress(Moved(s, e))
  {
    if !e.Connect? { assert Progress(s.sessions[e.id]); }
  }

  lemma StepKeeps(s: State, e: Event)
    requires Inv(s) && Enabled(s, e)
    ensures Inv(Apply(s, e))
  {
    RegistryStep(s, e);
    UniqueStep(s, e);
    MovedProgress(s, e);
  }

  lemma {:induction false} RunKeeps(es: seq<Event>, s: State)
    requires Runs(es, s)
    ensures Inv(s)
  {
    if es != [] {
      var n := |es| - 1;
      var t :| Runs(es[..n], t) && Enabled(t, es[n]) && s == Apply(t, es[n]);
      RunKeeps(es[..n], t);
      StepKeeps(t, es[n]);
    }
  }

  // ---------- what a session owns, from the lines it read ----------

  ghost predicate Named(es: seq<Event>, id: nat, h: string) {
    exists j :: 0 <= j < |es| && es[j] == Name(id, h)
  }

  /** Event k is a line that gives r to the handle that event j gave to the session. */
  ghost predicate Gives(es: seq<Event>, j: nat, k: nat, id: nat, r: Resource) {
    j < k < |es| && es[j].Name? && es[j].id == id && es[k] == Owner(id, r, es[j].handle)
  }

  /** After the session learned its handle, the radio named that handle as the owner of r. */
  ghost predicate Given(es: seq<Event>, id: nat, r: Resource) {
    exists j: nat, k: nat :: Gives(es, j, k, id, r)
  }

  lemma NamedSnoc(init: seq<Event>, e: Event, id: nat, h: string)
    ensures Named(init + [e], id, h) <==> Named(init, id, h) || e == Name(id, h)
  {
    var es := init + [e];
    assert es[|init|] == e && forall i :: 0 <= i < |init| ==> es[i] == init[i];
  }

  lemma GivenSnoc(init: seq<Event>, e: Event, id: nat, r: Resource)
    ensures Given(init + [e], id, r) <==>
            Given(init, id, r) || (e.Owner? && e.id == id && e.r == r && Named(init, id, e.handle))
  {
    var es := init + [e];
    assert es[|init|] == e && forall i :: 0 <= i < |init| ==> es[i] == init[i];
    if Given(init, id, r) {
      var j: nat, k: nat :| Gives(init, j, k, id, r);
      assert Gives(es, j, k, id, r);
    }
    if e.Owner? && e.id == id && e.r == r && Named(init, id, e.handle) {
      var j: nat :| j < |init| && init[j] == Name(id, e.handle);
      assert Gives(es, j, |init|, id, r);
    }
    if Given(es, id, r) {
      var j: nat, k: nat :| Gives(es, j, k, id, r);
      if k < |init| {
        assert Gives(init, j, k, id, r);
      } else {
        assert init[j] == Name(id, e.handle);
      }
    }
  }

  lemma LastEvent(es: seq<Event>, s: State) returns (init: seq<Event>, t: State, e: Event)
    requires Runs(es, s) && es != []
    ensures es == init + [e] && |init| == |es| - 1 && Runs(init, t) && Enabled(t, e) && s == Apply(t, e)
    ensures s.sessions == t.sessions[e.id := Moved(t, e)]
  {
    var n := |es| - 1;
    init, e := es[..n], es[n];
    t :| Runs(es[..n], t) && Enabled(t, es[n]) && s == Apply(t, es[n]);
  }

  lemma HandleStep(t: State, e: Event, id: nat, h: string)
    requires Enabled(t, e)
    ensures var x := t.sessions[e.id := Moved(t, e)];
            id in x && x[id].handle == Some(h) <==>
            (id in t.sessions && t.sessions[id].handle == Some(h)) || e == Name(id, h)
  {
  }

  lemma OwnedStep(t: State, e: Event, id: nat, r: Resource)
    requires Enabled(t, e)
    ensures var x := t.sessions[e.id := Moved(t, e)];
            id in x && r in x[id].owned <==>
            || (id in t.sessions && r in t.sessions[id].owned)
            || (e.Owner? && e.id == id && e.r == r && t.sessions[id].handle == Some(e.handle))
  {
  }

  lemma SawEmptyStep(t: State, e: Event, id: nat)
    requires Inv(t) && Enabled(t, e)
    ensures var x := t.sessions[e.id := Moved(t, e)];
            id in x && x[id].sawEmpty <==>
            (id in t.sessions && t.sessions[id].sawEmpty) || (e == Check(id) && t.clients == map[])
  {
    if e == Check(id) { assert Progress(t.sessions[id]); }
  }

  /** While one session removes, another is registered because it already was, or because it registers now. */
  lemma NewcomerStep(t: State, e: Event, id: nat, j: nat)
    requires Inv(t) && Enabled(t, e)
    requires var x := t.sessions[e.id := Moved(t, e)];
             id in x && x[id].phase.Removing? && j in x && Registered(x[j])
    ensures id in t.sessions && t.sessions[id].phase.Removing?
    ensures e == Register(j) || (j in t.sessions && Registered(t.sessions[j]))
  {
    assert j in t.sessions && Registered(t.sessions[j]) ==> t.clients != map[];
  }

  /** A session's handle is the one it was named. */
  lemma {:induction false} HandleExactly(es: seq<Event>, s: State, id: nat, h: string)
    requires Runs(es, s)
    ensures Named(es, id, h) <==> id in s.sessions && s.sessions[id].handle == Some(h)
  {
    if es != [] {
      var init, t, e := LastEvent(es, s);
      HandleExactly(init, t, id, h);
      NamedSnoc(init, e, id, h);
      HandleStep(t, e, id, h);
    }
  }

  /** What a session owns is exactly what was given to its handle: nothing is forgotten or made up. */
  lemma {:induction false} OwnedExactly(es: seq<Event>, s: State, id: nat, r: Resource)
    requires Runs(es, s)
    ensures Given(es, id, r) <==> id in s.sessions && r in s.sessions[id].owned
  {
    if es != [] {
      var init, t, e := LastEvent(es, s);
      OwnedExactly(init, t, id, r);
      GivenSnoc(init, e, id, r);
      OwnedStep(t, e, id, r);
      if e.Owner? { HandleExactly(init, t, id, e.handle); }
    }
  }

  // ---------- the check ----------

  /** Event c is the session's check, and it finds the registry empty. */
  ghost predicate EmptyCheck(es: seq<Event>, c: nat, id: nat) {
    c < |es| && es[c] == Check(id) && exists u :: Runs(es[..c], u) && u.clients == map[]
  }

  ghost predicate FoundEmpty(es: seq<Event>, id: nat) {
    exists c: nat :: EmptyCheck(es, c, id)
  }

  lemma {:induction false} RunsOnce(es: seq<Event>, s: State, t: State)
    requires Runs(es, s) && Runs(es, t)
    ensures s == t
  {
    if es != [] {
      var n := |es| - 1;
      var u :| Runs(es[..n], u) && Enabled(u, es[n]) && s == Apply(u, es[n]);
      var v :| Runs(es[..n], v) && Enabled(v, es[n]) && t == Apply(v, es[n]);
      RunsOnce(es[..n], u, v);
    }
  }

  lemma FoundSnoc(init: seq<Event>, e: Event, t: State, id: nat)
    requires Runs(init, t)
    ensures FoundEmpty(init + [e], id) <==> FoundEmpty(init, id) || (e == Check(id) && t.clients == map[])
  {
    var es := init + [e];
    forall c: nat | c <= |init| ensures es[..c] == init[..c] && es[c] == if c < |init| then init[c] else e {}
    assert init[..|init|] == init;
    if c: nat :| EmptyCheck(init, c, id) { assert EmptyCheck(es, c, id); }
    if e == Check(id) && t.clients == map[] { assert EmptyCheck(es, |init|, id); }
    if c: nat :| EmptyCheck(es, c, id) {
      if c < |init| {
        assert EmptyCheck(init, c, id);
      } else {
        var u :| Runs(es[..c], u) && u.clients == map[];
        RunsOnce(init, u, t);
      }
    }
  }

  lemma {:induction false} SawEmptyExactly(es: seq<Event>, s: State, id: nat)
    requires Runs(es, s)
    ensures FoundEmpty(es, id) <==> id in s.sessions && s.sessions[id].sawEmpty
  {
    if es != [] {
      var init, t, e := LastEvent(es, s);
      SawEmptyExactly(init, t, id);
      RunKeeps(init, t);
      FoundSnoc(init, e, t, id);
      SawEmptyStep(t, e, id);
    }
  }

  // ---------- the theorems ----------

  /** The registry maps exactly the handles of registered, not yet unregistered sessions. */
  lemma {:induction false} ClientsExact(es: seq<Event>, s: State, h: string, id: nat)
    requires Runs(es, s)
    ensures h in s.clients && s.clients[h] == id <==>
            id in s.sessions && Registered(s.sessions[id]) && s.sessions[id].handle == Some(h)
  {
    RunKeeps(es, s);
  }

  /**
    A removal command is issued only after that session's check found the registry empty, and
    names a pan or slice that the radio gave to that session's own handle; by the time the radio
    connection closes, the commands issued are for all that were given, or for none.
  */
  lemma RemovalsJustified(es: seq<Event>, s: State, id: nat, r: Resource)
    requires Runs(es, s) && id in s.sessions
    ensures var x := s.sessions[id];
            && (r in x.issued ==> FoundEmpty(es, id) && Given(es, id, r))
            && (x.phase.Closed? ==> (r in x.issued <==> FoundEmpty(es, id) && Given(es, id, r)))
  {
    RunKeeps(es, s);
    assert Progress(s.sessions[id]);
    OwnedExactly(es, s, id, r);
    SawEmptyExactly(es, s, id);
  }

  /** Pans go before slices: when a slice is removed every pan that was given already was. */
  lemma PansFirst(es: seq<Event>, s: State, id: nat, slice: Resource, pan: Resource)
    requires Runs(es, s) && id in s.sessions && slice in s.sessions[id].issued && slice.Slice?
    requires Given(es, id, pan) && pan.Pan?
    ensures pan in s.sessions[id].issued
  {
    RunKeeps(es, s);
    assert Progress(s.sessions[id]);
    OwnedExactly(es, s, id, pan);
  }

  /** Nobody registers between event k and the session's check. */
  ghost predicate NobodyBeforeCheck(es: seq<Event>, k: nat, id: nat) {
    forall j :: k < j < |es| && es[j].Register? ==> Checked(es[..j], k, id)
  }

  ghost predicate Checked(es: seq<Event>, k: nat, id: nat) {
    exists c :: k < c < |es| && es[c] == Check(id)
  }

  /** On its way out of an empty registry: about to check it, or past an empty check, or with nothing to remove. */
  ghost predicate WillCleanUp(s: State, id: nat) {
    id in s.sessions &&
    var x := s.sessions[id];
    || (x.phase.Checking? && s.clients == map[])
    || ((x.phase.Removing? || x.phase.Finishing? || x.phase.Closed?) && (x.sawEmpty || x.owned == {}))
  }

  lemma WillCleanUpStep(s: State, e: Event, id: nat)
    requires Inv(s) && Enabled(s, e) && WillCleanUp(s, id)
    requires e.Register? ==> !s.sessions[id].phase.Checking?
    ensures WillCleanUp(Apply(s, e), id)
    ensures e == Check(id) || !s.sessions[id].phase.Checking? ==> !Apply(s, e).sessions[id].phase.Checking?
  {
    assert Progress(s.sessions[id]);
  }

  lemma NobodyInit(init: seq<Event>, e: Event, k: nat, id: nat)
    requires NobodyBeforeCheck(init + [e], k, id) && k < |init|
    ensures NobodyBeforeCheck(init, k, id) && (e.Register? ==> Checked(init, k, id))
  {
    var es := init + [e];
    assert es[|init|] == e && es[..|init|] == init;
    forall j | k < j < |init| && init[j].Register? ensures Checked(init[..j], k, id) {
      assert es[..j] == init[..j] && es[j].Register?;
    }
  }

  lemma CheckedSnoc(init: seq<Event>, e: Event, k: nat, id: nat)
    requires k < |init|
    ensures Checked(init + [e], k, id) <==> Checked(init, k, id) || e == Check(id)
  {
    var es := init + [e];
    assert es[|init|] == e && forall i :: 0 <= i < |init| ==> es[i] == init[i];
  }

  lemma UnregisteredEmpty(t: State, id: nat)
    requires Inv(t) && Enabled(t, Unregister(id)) && Apply(t, Unregister(id)).clients == map[]
    ensures WillCleanUp(Apply(t, Unregister(id)), id)
  {
    assert Progress(t.sessions[id]);
  }

  lemma {:induction false} EmptyUntilChecked(es: seq<Event>, k: nat, t: State, s: State, id: nat)
    requires Runs(es, s) && k < |es| && es[k] == Unregister(id)
    requires Runs(es[..k + 1], t) && t.clients == map[] && NobodyBeforeCheck(es, k, id)
    ensures WillCleanUp(s, id) && (Checked(es, k, id) ==> !s.sessions[id].phase.Checking?)
  {
    var init, u, e := LastEvent(es, s);
    RunKeeps(init, u);
    if |init| == k {
      assert es[..k + 1] == es;
      RunsOnce(es, s, t);
      UnregisteredEmpty(u, id);
    } else {
      assert init[..k + 1] == es[..k + 1];
      NobodyInit(init, e, k, id);
      CheckedSnoc(init, e, k, id);
      EmptyUntilChecked(init, k, t, u, id);
      WillCleanUpStep(u, e, id);
    }
  }

  /**
    The last session out cleans up: if the registry was empty right after it unregistered and
    nobody registered before its check, then when its radio connection closes it has issued the
    removal of exactly the pans and slices that the radio gave to its handle.
  */
  lemma {:induction false} LastOutCleansUp(es: seq<Event>, k: nat, t: State, s: State, id: nat, r: Resource)
    requires Runs(es, s) && At(s, id, Closed)
    requires k < |es| && es[k] == Unregister(id) && Runs(es[..k + 1], t) && t.clients == map[]
    requires NobodyBeforeCheck(es, k, id)
    ensures r in s.sessions[id].issued <==> Given(es, id, r)
  {
    RunKeeps(es, s);
    assert Progress(s.sessions[id]);
    OwnedExactly(es, s, id, r);
    EmptyUntilChecked(es, k, t, s, id);
  }

  /** Session j registered after session id's check. */
  ghost predicate Overtook(es: seq<Event>, c: nat, b: nat, id: nat, j: nat) {
    c < b < |es| && es[c] == Check(id) && es[b] == Register(j)
  }

  ghost predicate Newcomer(es: seq<Event>, id: nat, j: nat) {
    exists c: nat, b: nat :: Overtook(es, c, b, id, j)
  }

  ghost predicate HasChecked(es: seq<Event>, id: nat) {
    exists c :: 0 <= c < |es| && es[c] == Check(id)
  }

  lemma {:induction false} RemovingAfterCheck(es: seq<Event>, s: State, id: nat)
    requires Runs(es, s) && id in s.sessions && s.sessions[id].phase.Removing?
    ensures HasChecked(es, id)
  {
    var init, t, e := LastEvent(es, s);
    if e == Check(id) {
      assert es[|init|] == Check(id);
    } else {
      RemovingAfterCheck(init, t, id);
      var c :| 0 <= c < |init| && init[c] == Check(id);
      assert es[c] == Check(id);
    }
  }

  lemma {:induction false} OnlyNewcomers(es: seq<Event>, s: State, id: nat, j: nat)
    requires Runs(es, s) && id in s.sessions && s.sessions[id].phase.Removing?
    requires j in s.sessions && Registered(s.sessions[j])
    ensures Newcomer(es, id, j)
  {
    var init, t, e := LastEvent(es, s);
    RunKeeps(init, t);
    NewcomerStep(t, e, id, j);
    if e == Register(j) {
      RemovingAfterCheck(init, t, id);
      var c :| 0 <= c < |init| && init[c] == Check(id);
      assert Overtook(es, c, |init|, id, j);
    } else {
      OnlyNewcomers(init, t, id, j);
      var c: nat, b: nat :| Overtook(init, c, b, id, j);
      assert Overtook(es, c, b, id, j);
    }
  }

  /**
    While a session removes, everybody registered came after its check, so there is somebody
    registered exactly when there is such a newcomer.
  */
  lemma RemovingAlone(es: seq<Event>, s: State, id: nat)
    requires Runs(es, s) && id in s.sessions && s.sessions[id].phase.Removing?
    ensures forall j :: j in s.sessions && Registered(s.sessions[j]) ==> Newcomer(es, id, j)
    ensures s.clients != map[] <==> exists j :: j in s.sessions && Registered(s.sessions[j]) && Newcomer(es, id, j)
  {
    RunKeeps(es, s);
    forall j | j in s.sessions && Registered(s.sessions[j]) ensures Newcomer(es, id, j) {
      OnlyNewcomers(es, s, id, j);
    }
    if s.clients != map[] {
      var h :| h in s.clients;
      assert Registered(s.sessions[s.clients[h]]);
    }
  }

  /**
    The assumption on handles is needed: once a second session is registered under the handle of
    one that is still leaving, the first one's unregistering takes the second one's entry away.
  */
  lemma SharedHandleLosesEntry(s: State, first: nat, second: nat, h: string)
    requires first != second && At(s, first, Leaving) && At(s, second, Running)
    requires s.sessions[first].handle == Some(h) && s.sessions[second].handle == Some(h)
    ensures var t := Apply(s, Unregister(first)); Registered(t.sessions[second]) && h !in t.clients
  {
  }

  lemma Extend(es: seq<Event>, s: State, e: Event) returns (es': seq<Event>, s': State)
    requires Runs(es, s) && Enabled(s, e)
    ensures Runs(es', s') && s' == Apply(s, e)
  {
    assert (es + [e])[..|es|] == es;
    es', s' := es + [e], Apply(s, e);
  }

  lemma OneOwner(p: Resource) returns (es: seq<Event>, s: State)
    ensures Runs(es, s) && s.clients == map["A" := 0] && s.sessions.Keys == {0}
    ensures s.sessions[0] == Session(Running, Some("A"), {p}, {}, false)
  {
    es, s := [], INITIAL;
    es, s := Extend(es, s, Connect(0));
    es, s := Extend(es, s, Name(0, "A"));
    es, s := Extend(es, s, Register(0));
    es, s := Extend(es, s, Owner(0, p, "A"));
  }

  lemma OneRemoving(p: Resource) returns (es: seq<Event>, s: State)
    ensures Runs(es, s) && s.clients == map[] && s.sessions.Keys == {0}
    ensures s.sessions[0].phase == Removing({p}) && s.sessions[0].handle == Some("A")
  {
    es, s := OneOwner(p);
    es, s := Extend(es, s, Leave(0));
    es, s := Extend(es, s, Unregister(0));
    assert s.clients == map[];
    es, s := Extend(es, s, Check(0));
  }

  /** And that can happen: check and removal are not one step. */
  lemma RemovalCanRaceWithNewcomer()
    ensures exists es, s :: Runs(es, s) && s.clients != map[] && exists p :: Enabled(s, Remove(0, p))
  {
    var p := Pan("0x40000001");
    var es, s := OneRemoving(p);
    es, s := Extend(es, s, Connect(1));
    assert "A" != "B";
    es, s := Extend(es, s, Name(1, "B"));
    es, s := Extend(es, s, Register(1));
    assert s.clients["B"] == 1;
    assert Enabled(s, Remove(0, p));
  }
}
