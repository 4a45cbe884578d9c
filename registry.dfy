/**
 The binding registry of the delegate manager as values: the two-level table
 event name -> method name -> handle, the calls the manager issues to the
 listener-registration layer, and one function per operation giving the
 registry and the call log after the operation from those before it.
 */
module Registry {
  import opened Descriptors

  datatype Option<T> = None | Some(value: T)

  /** The value stored to undo a registration: for a delegated binding the
      token the delegation layer returned for callback `fn`, for a direct one
      the callback `fn` itself. Callbacks are identified by a number that is
      fresh at each bind, as each bind creates a new bound function. */
  datatype Handle = Direct(fn: nat) | Delegated(fn: nat)

  /** A call into the listener-registration layer. */
  datatype Call =
    | AddListener(event: string, fn: nat)
    | DelegateBind(selector: string, event: string, fn: nat)
    | DelegateUnbind(event: string, handle: Handle)

  type Table = map<string, map<string, Handle>>

  /** The manager's state: its table, the calls issued so far, and the
      identity the next callback created will get. */
  datatype World = World(bindings: Table, log: seq<Call>, next: nat)

  /** A thrown error: the receiver has no method of that name (calling it
      throws), or a descriptor was undefined (splitting it throws). */
  datatype Error = MissingMethod(methodName: string) | UndefinedDescriptor

  datatype Outcome = Pass | Fail(error: Error)

  /** The handle stored for a pair, if any. */
  function Lookup(b: Table, e: string, m: string): Option<Handle>
  {
    if e in b && m in b[e] then Some(b[e][m]) else None
  }

  /** The method name used by bind and unbind: the given one, or "on" followed
      by the event name when none (or an empty one) is given. */
  function MethodName(name: string, methodName: string): (r: string)
    ensures r != ""
    ensures methodName != "" ==> r == methodName
    ensures methodName == "" ==> r == "on" + name
  {
    if methodName != "" then methodName else "on" + name
  }

  /** One (name, handle) registration that a call adds or takes away. */
  function Apply(live: set<(string, Handle)>, c: Call): (r: set<(string, Handle)>)
    ensures !c.DelegateUnbind? ==> live <= r
    ensures c.AddListener? ==> (c.event, Direct(c.fn)) in r
    ensures c.DelegateBind? ==> (c.event, Delegated(c.fn)) in r
    ensures c.DelegateUnbind? ==>
      && (c.event, c.handle) !in r
      && forall x | x in live && x != (c.event, c.handle) :: x in r
  {
    match c
    case AddListener(e, fn) => live + {(e, Direct(fn))}
    case DelegateBind(_, e, fn) => live + {(e, Delegated(fn))}
    case DelegateUnbind(e, h) => live - {(e, h)}
  }

  /** The registrations a call log leaves live, assuming the removal call undoes
      a registration of either kind. */
  function Active(log: seq<Call>): set<(string, Handle)>
    decreases |log|
  {
    if log == [] then {} else Apply(Active(log[..|log| - 1]), log[|log| - 1])
  }

  lemma ActiveSnoc(log: seq<Call>, c: Call)
    ensures Active(log + [c]) == Apply(Active(log), c)
  {
    assert (log + [c])[..|log|] == log;
  }

  /** No two entries of the table hold handles for the same callback. */
  ghost predicate HandlesDistinct(b: Table)
  {
    forall e1, m1, e2, m2 |
      e1 in b && m1 in b[e1] && e2 in b && m2 in b[e2] && b[e1][m1].fn == b[e2][m2].fn
      :: e1 == e2 && m1 == m2
  }

  /** Event names are parsed names (no space) and method names are not empty. */
  ghost predicate NamesWellFormed(b: Table)
  {
    && (forall e | e in b :: ' ' !in e)
    && (forall e, m | e in b && m in b[e] :: m != "")
  }

  /** The invariant of every reachable state: event names are parsed names,
      method names are not empty, handles are for distinct callbacks already
      created, and every handle in the table is a live registration. */
  ghost predicate Valid(w: World)
  {
    && NamesWellFormed(w.bindings)
    && (forall e, m | e in w.bindings && m in w.bindings[e] ::
          && w.bindings[e][m].fn < w.next
          && (e, w.bindings[e][m]) in Active(w.log))
    && HandlesDistinct(w.bindings)
  }

  const Empty := World(map[], [], 0)

  lemma EmptyValid()
    ensures Valid(Empty)
  {
  }

  /** bind(s, method): resolve the method name, fail if the receiver lacks it,
      else register (delegated when the selector is not empty, direct otherwise)
      and store the handle, overwriting any previous one without removing it. */
  function BindStep(w: World, receiver: set<string>, s: string, methodName: string): (r: (Outcome, World))
    ensures var d := Parse(s); var m := MethodName(d.name, methodName);
      && (r.0.Fail? <==> m !in receiver)
      && (r.0.Fail? ==> r.0 == Fail(MissingMethod(m)) && r.1 == w)
      && (r.0.Pass? ==>
            && Lookup(r.1.bindings, d.name, m)
               == Some(if d.selector != "" then Delegated(w.next) else Direct(w.next))
            && r.1.log == w.log + [if d.selector != "" then DelegateBind(d.selector, d.name, w.next)
                                   else AddListener(d.name, w.next)]
            && r.1.next == w.next + 1)
  {
    var d := Parse(s);
    var m := MethodName(d.name, methodName);
    if m !in receiver then (Fail(MissingMethod(m)), w)
    else
      var h := if d.selector != "" then Delegated(w.next) else Direct(w.next);
      var c := if d.selector != "" then DelegateBind(d.selector, d.name, w.next) else AddListener(d.name, w.next);
      var inner := if d.name in w.bindings then w.bindings[d.name] else map[];
      (Pass, World(w.bindings[d.name := inner[m := h]], w.log + [c], w.next + 1))
  }

  /** A successful bind changes no other pair and adds the event name to the table. */
  lemma BindStepOthers(w: World, receiver: set<string>, s: string, methodName: string)
    ensures var d := Parse(s); var m := MethodName(d.name, methodName);
      var r := BindStep(w, receiver, s, methodName);
      r.0.Pass? ==>
        && (forall e, m' | (e, m') != (d.name, m) ::
              Lookup(r.1.bindings, e, m') == Lookup(w.bindings, e, m'))
        && r.1.bindings.Keys == w.bindings.Keys + {d.name}
  {
  }

  lemma BindKeepsValid(w: World, receiver: set<string>, s: string, methodName: string)
    requires Valid(w)
    ensures Valid(BindStep(w, receiver, s, methodName).1)
  {
    var r := BindStep(w, receiver, s, methodName).1;
    if r != w {
      var d := Parse(s);
      var m := MethodName(d.name, methodName);
      var c := r.log[|r.log| - 1];
      ActiveSnoc(w.log, c);
      assert r.log == w.log + [c];
      forall e, m' | e in r.bindings && m' in r.bindings[e]
        ensures r.bindings[e][m'].fn < r.next && (e, r.bindings[e][m']) in Active(r.log)
      {
        if (e, m') != (d.name, m) {
          assert Lookup(r.bindings, e, m') == Lookup(w.bindings, e, m');
        }
      }
      forall e, m' | e in r.bindings && m' in r.bindings[e] && (e, m') != (d.name, m)
        ensures e in w.bindings && m' in w.bindings[e] && r.bindings[e][m'] == w.bindings[e][m']
      {
        assert Lookup(r.bindings, e, m') == Lookup(w.bindings, e, m');
      }
      assert r.bindings[d.name][m].fn == w.next;
    }
  }

  /** Two-argument unbind(s, method): look the pair up by the parsed name and
      the resolved method name; if present, issue one removal call with the
      stored handle and delete that inner key only. */
  function UnbindStep(w: World, s: string, methodName: string): (r: World)
    ensures var name := Parse(s).name; var m := MethodName(name, methodName);
      && (Lookup(w.bindings, name, m).None? ==> r == w)
      && (Lookup(w.bindings, name, m).Some? ==>
            && r.log == w.log + [DelegateUnbind(name, Lookup(w.bindings, name, m).value)]
            && Lookup(r.bindings, name, m) == None
            && (forall e, m' | (e, m') != (name, m) ::
                  Lookup(r.bindings, e, m') == Lookup(w.bindings, e, m'))
            && r.bindings.Keys == w.bindings.Keys
            && r.next == w.next)
  {
    var name := Parse(s).name;
    var m := MethodName(name, methodName);
    if name !in w.bindings then w
    else if m !in w.bindings[name] then w
    else
      var functions := w.bindings[name];
      World(w.bindings[name := functions - {m}], w.log + [DelegateUnbind(name, functions[m])], w.next)
  }

  lemma UnbindKeepsValid(w: World, s: string, methodName: string)
    requires Valid(w)
    ensures Valid(UnbindStep(w, s, methodName))
  {
    var r := UnbindStep(w, s, methodName);
    if r != w {
      var name := Parse(s).name;
      var m := MethodName(name, methodName);
      var h := w.bindings[name][m];
      ActiveSnoc(w.log, DelegateUnbind(name, h));
      forall e, m' | e in r.bindings && m' in r.bindings[e]
        ensures (e, r.bindings[e][m']) in Active(r.log)
      {
        assert Lookup(r.bindings, e, m') == Lookup(w.bindings, e, m');
        assert w.bindings[e][m'].fn != h.fn;
      }
    }
  }

  /** Unbinding a pair a second time changes nothing. */
  lemma UnbindIdempotent(w: World, s: string, methodName: string)
    ensures UnbindStep(UnbindStep(w, s, methodName), s, methodName) == UnbindStep(w, s, methodName)
  {
  }

  /** Binding a pair and unbinding it again issues exactly the registration and
      its removal, with the handle just stored, so that listener is no longer
      live; the other pairs are as before. */
  lemma BindThenUnbind(w: World, receiver: set<string>, s: string, methodName: string)
    requires BindStep(w, receiver, s, methodName).0.Pass?
    ensures var name := Parse(s).name; var m := MethodName(name, methodName);
      var w1 := BindStep(w, receiver, s, methodName).1;
      var h := Lookup(w1.bindings, name, m).value;
      var w2 := UnbindStep(w1, s, methodName);
      && w2.log == w1.log + [DelegateUnbind(name, h)]
      && (name, h) !in Active(w2.log)
      && Lookup(w2.bindings, name, m) == None
      && (forall e, m' | (e, m') != (name, m) :: Lookup(w2.bindings, e, m') == Lookup(w.bindings, e, m'))
  {
    var name := Parse(s).name;
    var m := MethodName(name, methodName);
    var w1 := BindStep(w, receiver, s, methodName).1;
    var h := Lookup(w1.bindings, name, m).value;
    ActiveSnoc(w1.log, DelegateUnbind(name, h));
  }

  /** Binding the same pair twice and then unbinding it leaves the first
      registration live although the table no longer holds its handle: the
      overwrite in bind does not remove the earlier listener. */
  lemma RebindLeavesListenerLive(w: World, receiver: set<string>, s: string, methodName: string)
    requires Valid(w)
    requires BindStep(w, receiver, s, methodName).0.Pass?
    ensures var name := Parse(s).name; var m := MethodName(name, methodName);
      var w1 := BindStep(w, receiver, s, methodName).1;
      var h1 := Lookup(w1.bindings, name, m).value;
      var w2 := BindStep(w1, receiver, s, methodName).1;
      var w3 := UnbindStep(w2, s, methodName);
      && (name, h1) in Active(w3.log)
      && (forall e, m' :: Lookup(w3.bindings, e, m') != Some(h1))
  {
    var name := Parse(s).name;
    var m := MethodName(name, methodName);
    var w1 := BindStep(w, receiver, s, methodName).1;
    var h1 := Lookup(w1.bindings, name, m).value;
    var w2 := BindStep(w1, receiver, s, methodName).1;
    var h2 := Lookup(w2.bindings, name, m).value;
    var w3 := UnbindStep(w2, s, methodName);
    var sel := Parse(s).selector;
    var c1 := if sel != "" then DelegateBind(sel, name, w.next) else AddListener(name, w.next);
    var c2 := if sel != "" then DelegateBind(sel, name, w.next + 1) else AddListener(name, w.next + 1);
    assert w3.log == w.log + [c1] + [c2] + [DelegateUnbind(name, h2)];
    RebindActive(w.log, c1, c2, name, h1, h2);
    RebindForgets(w, receiver, s, methodName);
  }

  /** After the rebind and the unbind, no entry holds the first handle. */
  lemma RebindForgets(w: World, receiver: set<string>, s: string, methodName: string)
    requires Valid(w)
    requires BindStep(w, receiver, s, methodName).0.Pass?
    ensures var name := Parse(s).name; var m := MethodName(name, methodName);
      var w1 := BindStep(w, receiver, s, methodName).1;
      var h1 := Lookup(w1.bindings, name, m).value;
      var w3 := UnbindStep(BindStep(w1, receiver, s, methodName).1, s, methodName);
      forall e, m' :: Lookup(w3.bindings, e, m') != Some(h1)
  {
    var name := Parse(s).name;
    var m := MethodName(name, methodName);
    var w1 := BindStep(w, receiver, s, methodName).1;
    var h1 := Lookup(w1.bindings, name, m).value;
    var w2 := BindStep(w1, receiver, s, methodName).1;
    var w3 := UnbindStep(w2, s, methodName);
    BindStepOthers(w, receiver, s, methodName);
    BindStepOthers(w1, receiver, s, methodName);
    forall e, m' | (e, m') != (name, m)
      ensures Lookup(w3.bindings, e, m') != Some(h1)
    {
      assert Lookup(w3.bindings, e, m') == Lookup(w.bindings, e, m');
    }
  }

  /** Registering h1, then registering something else, then removing h2 leaves
      h1 live when h1 and h2 differ. */
  lemma RebindActive(log0: seq<Call>, c1: Call, c2: Call, name: string, h1: Handle, h2: Handle)
    requires h1 != h2 && !c1.DelegateUnbind? && !c2.DelegateUnbind?
    requires Apply({}, c1) == {(name, h1)}
    ensures (name, h1) in Active(log0 + [c1] + [c2] + [DelegateUnbind(name, h2)])
  {
    ActiveSnoc(log0, c1);
    ActiveSnoc(log0 + [c1], c2);
    ActiveSnoc(log0 + [c1] + [c2], DelegateUnbind(name, h2));
  }

  // ---- bind_all ----

  /** The method name an entry of a bind_all map resolves to. */
  function Resolved(entry: (string, string)): string
  {
    MethodName(Parse(entry.0).name, entry.1)
  }

  /** Every entry of a bind_all map resolves to a method the receiver has. */
  ghost predicate AllResolve(receiver: set<string>, entries: seq<(string, string)>)
  {
    forall i | 0 <= i < |entries| :: Resolved(entries[i]) in receiver
  }

  lemma AllResolveSnoc(receiver: set<string>, entries: seq<(string, string)>)
    requires entries != []
    ensures var n := |entries| - 1;
      AllResolve(receiver, entries) <==> AllResolve(receiver, entries[..n]) && Resolved(entries[n]) in receiver
  {
    var n := |entries| - 1;
    assert forall i | 0 <= i < n :: entries[..n][i] == entries[i];
  }

  /** bind_all(map): bind every entry in the map's iteration order; the first
      missing method stops the run, leaving the earlier entries bound. */
  function BindAll(w: World, receiver: set<string>, entries: seq<(string, string)>): (r: (Outcome, World))
    ensures r.0.Pass? <==> AllResolve(receiver, entries)
    decreases |entries|
  {
    if entries == [] then (Pass, w)
    else
      var n := |entries| - 1;
      var p := BindAll(w, receiver, entries[..n]);
      AllResolveSnoc(receiver, entries);
      if p.0.Fail? then p
      else BindStep(p.1, receiver, entries[n].0, entries[n].1)
  }

  /** A pair is bound for each entry of a bind_all map. */
  ghost predicate AllBound(b: Table, entries: seq<(string, string)>)
  {
    forall i | 0 <= i < |entries| :: Lookup(b, Parse(entries[i].0).name, Resolved(entries[i])).Some?
  }

  /** A successful bind of one more entry keeps the earlier entries bound and binds the new one. */
  lemma BindStepAllBound(w: World, receiver: set<string>, entries: seq<(string, string)>, x: (string, string))
    requires AllBound(w.bindings, entries)
    ensures var r := BindStep(w, receiver, x.0, x.1);
      r.0.Pass? ==> AllBound(r.1.bindings, entries + [x])
  {
    var r := BindStep(w, receiver, x.0, x.1);
    if r.0.Pass? {
      var ext := entries + [x];
      forall i | 0 <= i < |ext|
        ensures Lookup(r.1.bindings, Parse(ext[i].0).name, Resolved(ext[i])).Some?
      {
        if i < |entries| {
          assert ext[i] == entries[i];
        }
      }
    }
  }

  /** When bind_all succeeds, every entry got a fresh callback and is bound. */
  lemma {:induction false} BindAllPass(w: World, receiver: set<string>, entries: seq<(string, string)>)
    ensures var r := BindAll(w, receiver, entries);
      r.0.Pass? ==> r.1.next == w.next + |entries| && AllBound(r.1.bindings, entries)
    decreases |entries|
  {
    if entries != [] {
      var n := |entries| - 1;
      var pre := entries[..n];
      BindAllPass(w, receiver, pre);
      var p := BindAll(w, receiver, pre);
      var r := BindAll(w, receiver, entries);
      if p.0.Pass? {
        assert r == BindStep(p.1, receiver, entries[n].0, entries[n].1);
        BindStepAllBound(p.1, receiver, pre, entries[n]);
        assert pre + [entries[n]] == entries;
      } else {
        assert r == p;
      }
    }
  }

  /** bind_all over one more entry. */
  lemma BindAllSnoc(w: World, receiver: set<string>, entries: seq<(string, string)>, i: nat)
    requires i < |entries|
    ensures BindAll(w, receiver, entries[..i + 1])
      == (var p := BindAll(w, receiver, entries[..i]);
          if p.0.Fail? then p else BindStep(p.1, receiver, entries[i].0, entries[i].1))
  {
    assert entries[..i + 1][..i] == entries[..i];
  }

  /** One iteration of the bind_all loop: a successful bind extends the bound
      prefix; a failed one is the outcome of the whole map. */
  lemma BindAllLoopStep(w: World, receiver: set<string>, entries: seq<(string, string)>, i: nat,
                        r: Outcome, after: World)
    requires i < |entries|
    requires BindAll(w, receiver, entries[..i]).0.Pass?
    requires (r, after) == BindStep(BindAll(w, receiver, entries[..i]).1, receiver, entries[i].0, entries[i].1)
    ensures r.Pass? ==> (Pass, after) == BindAll(w, receiver, entries[..i + 1])
    ensures r.Fail? ==> (r, after) == BindAll(w, receiver, entries)
  {
    BindAllSnoc(w, receiver, entries, i);
    if r.Fail? {
      BindAllAfterFail(w, receiver, entries, i + 1);
    }
  }

  lemma {:induction false} BindAllKeepsValid(w: World, receiver: set<string>, entries: seq<(string, string)>)
    requires Valid(w)
    ensures Valid(BindAll(w, receiver, entries).1)
    decreases |entries|
  {
    if entries != [] {
      var n := |entries| - 1;
      BindAllKeepsValid(w, receiver, entries[..n]);
      var p := BindAll(w, receiver, entries[..n]);
      if p.0.Pass? {
        BindKeepsValid(p.1, receiver, entries[n].0, entries[n].1);
      }
    }
  }

  /** Binding the concatenation of two entry lists is binding the first and,
      unless it failed, then the second. */
  lemma {:induction false} BindAllAppend(w: World, receiver: set<string>, a: seq<(string, string)>, b: seq<(string, string)>)
    ensures BindAll(w, receiver, a + b)
      == (var p := BindAll(w, receiver, a); if p.0.Fail? then p else BindAll(p.1, receiver, b))
    decreases |b|
  {
    if b == [] {
      assert a + b == a;
    } else {
      var n := |b| - 1;
      assert (a + b)[..|a + b| - 1] == a + b[..n];
      assert (a + b)[|a + b| - 1] == b[n];
      BindAllAppend(w, receiver, a, b[..n]);
    }
  }

  /** When entry k is the first whose method is missing, bind_all fails with
      that method and leaves exactly the entries before k bound. */
  lemma BindAllStopsAtFirstMissing(w: World, receiver: set<string>, entries: seq<(string, string)>, k: nat)
    requires k < |entries|
    requires Resolved(entries[k]) !in receiver
    requires forall i | 0 <= i < k :: Resolved(entries[i]) in receiver
    ensures BindAll(w, receiver, entries)
      == (Fail(MissingMethod(Resolved(entries[k]))), BindAll(w, receiver, entries[..k]).1)
  {
    var pre := entries[..k];
    assert AllResolve(receiver, pre) by {
      assert forall i | 0 <= i < k :: pre[i] == entries[i];
    }
    var p := BindAll(w, receiver, pre);
    assert p.0.Pass?;
    BindAllSnoc(w, receiver, entries, k);
    var q := BindAll(w, receiver, entries[..k + 1]);
    assert q == BindStep(p.1, receiver, entries[k].0, entries[k].1);
    assert q == (Fail(MissingMethod(Resolved(entries[k]))), p.1);
    BindAllAfterFail(w, receiver, entries, k + 1);
  }

  /** Once a prefix has failed, the rest of the map changes nothing. */
  lemma BindAllAfterFail(w: World, receiver: set<string>, entries: seq<(string, string)>, j: nat)
    requires j <= |entries| && BindAll(w, receiver, entries[..j]).0.Fail?
    ensures BindAll(w, receiver, entries) == BindAll(w, receiver, entries[..j])
  {
    var a, b := entries[..j], entries[j..];
    TakeDrop(entries, j);
    BindAllAppend(w, receiver, a, b);
  }

  lemma TakeDrop(s: seq<(string, string)>, j: nat)
    requires j <= |s|
    ensures s[..j] + s[j..] == s
  {
  }

  // ---- unbind_all_of and unbind_all ----

  function Elems(s: seq<string>): set<string>
  {
    set x | x in s
  }

  ghost predicate Distinct<T>(s: seq<T>)
  {
    forall i, j | 0 <= i < j < |s| :: s[i] != s[j]
  }

  /** `order` lists every key of `keys` exactly once: one iteration order of a for-in loop. */
  ghost predicate IsEnumeration(order: seq<string>, keys: set<string>)
  {
    Distinct(order) && Elems(order) == keys
  }

  lemma {:induction false} DistinctCard(s: seq<string>)
    requires Distinct(s)
    ensures |Elems(s)| == |s|
    decreases |s|
  {
    if s != [] {
      var n := |s| - 1;
      assert Distinct(s[..n]);
      DistinctCard(s[..n]);
      assert s == s[..n] + [s[n]];
      assert Elems(s) == Elems(s[..n]) + {s[n]};
      assert s[n] !in Elems(s[..n]);
    }
  }

  /** The loop body of unbind_all_of: the two-argument unbind of (e, m) for each m in turn. */
  function UnbindEach(w: World, e: string, order: seq<string>): (r: World)
    ensures r.bindings.Keys == w.bindings.Keys && r.next == w.next
    decreases |order|
  {
    if order == [] then w else UnbindStep(UnbindEach(w, e, order[..|order| - 1]), e, order[|order| - 1])
  }

  lemma UnbindEachSnoc(w: World, e: string, order: seq<string>, m: string)
    ensures UnbindEach(w, e, order + [m]) == UnbindStep(UnbindEach(w, e, order), e, m)
  {
    assert (order + [m])[..|order|] == order;
  }

  /** Bookkeeping of the loop of unbind_all_of: visiting one more pending key. */
  lemma OrderExtend(order: seq<string>, pending: set<string>, m: string)
    requires Distinct(order) && Elems(order) !! pending && m in pending
    ensures Distinct(order + [m])
    ensures Elems(order + [m]) == Elems(order) + {m}
    ensures Elems(order + [m]) !! pending - {m}
  {
    assert Elems(order + [m]) == Elems(order) + {m};
  }

  /** unbind_all_of(e): nothing when e has no inner table; otherwise unbind each
      of its methods, in the order given, then delete the key e. */
  function UnbindAllOf(w: World, e: string, order: seq<string>): (r: World)
    ensures e !in w.bindings ==> r == w
    ensures r.bindings.Keys == w.bindings.Keys - {e} && r.next == w.next
  {
    if e !in w.bindings then w
    else
      var u := UnbindEach(w, e, order);
      World(u.bindings - {e}, u.log, u.next)
  }

  /** The removal calls issued for the methods of one event, in the given order. */
  function Removals(e: string, inner: map<string, Handle>, order: seq<string>): (r: seq<Call>)
    requires Elems(order) <= inner.Keys
    ensures |r| == |order|
    ensures forall i | 0 <= i < |order| :: r[i] == DelegateUnbind(e, inner[order[i]])
    decreases |order|
  {
    if order == [] then []
    else
      var n := |order| - 1;
      assert Elems(order[..n]) <= Elems(order);
      Removals(e, inner, order[..n]) + [DelegateUnbind(e, inner[order[n]])]
  }

  lemma {:induction false} UnbindEachKeepsValid(w: World, e: string, order: seq<string>)
    requires Valid(w)
    ensures Valid(UnbindEach(w, e, order))
    decreases |order|
  {
    if order != [] {
      var n := |order| - 1;
      UnbindEachKeepsValid(w, e, order[..n]);
      UnbindKeepsValid(UnbindEach(w, e, order[..n]), e, order[n]);
    }
  }

  /** Unbinding the methods of a prefix of an enumeration of e's methods removes
      exactly those inner keys and issues their removal calls, one each. */
  lemma {:induction false} UnbindEachEffect(w: World, e: string, order: seq<string>)
    requires ' ' !in e && e in w.bindings
    requires forall m | m in w.bindings[e] :: m != ""
    requires Distinct(order) && Elems(order) <= w.bindings[e].Keys
    ensures var r := UnbindEach(w, e, order);
      && r.bindings == w.bindings[e := w.bindings[e] - Elems(order)]
      && r.log == w.log + Removals(e, w.bindings[e], order)
      && r.next == w.next
    decreases |order|
  {
    var inner := w.bindings[e];
    if order == [] {
      UpdateUnchanged(w.bindings, e);
    } else {
      var n := |order| - 1;
      var p := order[..n];
      var m := order[n];
      OrderSnoc(order);
      UnbindEachEffect(w, e, p);
      var u := UnbindEach(w, e, p);
      assert u.bindings[e] == inner - Elems(p);
      UnbindPresent(u, e, m);
      MinusStep(inner, Elems(p), m);
      UpdateTwice(w.bindings, e, inner - Elems(p), inner - Elems(order));
      ConcatAssoc(w.log, Removals(e, inner, p), [DelegateUnbind(e, inner[m])]);
    }
  }

  /** Splitting the last key off an order. */
  lemma OrderSnoc(order: seq<string>)
    requires Distinct(order) && order != []
    ensures var n := |order| - 1;
      && Distinct(order[..n])
      && order[n] !in Elems(order[..n])
      && Elems(order) == Elems(order[..n]) + {order[n]}
  {
    var n := |order| - 1;
    assert order == order[..n] + [order[n]];
  }

  // The next three lemmas are map identities stated on their own, so
  // that the proofs above use them without re-deriving them inside a large context.

  lemma UpdateUnchanged(b: Table, e: string)
    requires e in b
    ensures b[e := b[e] - Elems([])] == b
  {
    assert b[e] - Elems([]) == b[e];
  }

  lemma MinusStep(inner: map<string, Handle>, done: set<string>, m: string)
    ensures (inner - done) - {m} == inner - (done + {m})
  {
  }

  lemma UpdateTwice(b: Table, e: string, x: map<string, Handle>, y: map<string, Handle>)
    ensures b[e := x][e := y] == b[e := y]
  {
  }

  /** The two-argument unbind of a stored event name and one of its methods. */
  lemma UnbindPresent(w: World, e: string, m: string)
    requires ' ' !in e && m != "" && e in w.bindings && m in w.bindings[e]
    ensures UnbindStep(w, e, m)
      == World(w.bindings[e := w.bindings[e] - {m}], w.log + [DelegateUnbind(e, w.bindings[e][m])], w.next)
  {
    assert Parse(e).name == e;
    assert MethodName(e, m) == m;
  }

  /** unbind_all_of(e) on a present event deletes exactly the key e and issues
      one removal call per method of e, with the handle stored for it. This
      rests on e being a parsed name, so that re-parsing it gives e back. */
  lemma UnbindAllOfEffect(w: World, e: string, order: seq<string>)
    requires Valid(w) && e in w.bindings
    requires IsEnumeration(order, w.bindings[e].Keys)
    ensures var r := UnbindAllOf(w, e, order);
      && Valid(r)
      && r.bindings == w.bindings - {e}
      && r.log == w.log + Removals(e, w.bindings[e], order)
      && |r.log| == |w.log| + |w.bindings[e]|
      && r.next == w.next
  {
    UnbindAllOfResult(w, e, order);
    UnbindAllOfKeepsValid(w, e, order);
    DistinctCard(order);
  }

  lemma UnbindAllOfResult(w: World, e: string, order: seq<string>)
    requires ' ' !in e && e in w.bindings
    requires forall m | m in w.bindings[e] :: m != ""
    requires IsEnumeration(order, w.bindings[e].Keys)
    ensures var r := UnbindAllOf(w, e, order);
      && r.bindings == w.bindings - {e}
      && r.log == w.log + Removals(e, w.bindings[e], order)
      && r.next == w.next
  {
    UnbindEachEffect(w, e, order);
    var u := UnbindEach(w, e, order);
    assert u.bindings - {e} == w.bindings - {e};
  }

  lemma UnbindAllOfAbsent(w: World, e: string, order: seq<string>)
    requires e !in w.bindings
    ensures UnbindAllOf(w, e, order) == w
  {
  }

  lemma UnbindAllOfKeepsValid(w: World, e: string, order: seq<string>)
    requires Valid(w)
    ensures Valid(UnbindAllOf(w, e, order))
  {
    if e in w.bindings {
      UnbindEachKeepsValid(w, e, order);
    }
  }

  /** A run of unbind_all: the events in the order visited, each with the order
      in which its methods were visited. */
  type Run = seq<(string, seq<string>)>

  function Events(runs: Run): set<string>
  {
    set i | 0 <= i < |runs| :: runs[i].0
  }

  ghost predicate DistinctEvents(runs: Run)
  {
    forall i, j | 0 <= i < j < |runs| :: runs[i].0 != runs[j].0
  }

  /** Every event of `runs` is in `b`, each with an enumeration of its methods. */
  ghost predicate Enumerates(runs: Run, b: Table)
  {
    forall i | 0 <= i < |runs| :: runs[i].0 in b && IsEnumeration(runs[i].1, b[runs[i].0].Keys)
  }

  /** `runs` visits every event of `b` once, and each event's methods once. */
  ghost predicate IsRun(runs: Run, b: Table)
  {
    DistinctEvents(runs) && Events(runs) == b.Keys && Enumerates(runs, b)
  }

  lemma {:induction false} EventsCard(runs: Run)
    requires DistinctEvents(runs)
    ensures |Events(runs)| == |runs|
    decreases |runs|
  {
    if runs != [] {
      var n := |runs| - 1;
      var p := runs[..n];
      assert forall i | 0 <= i < n :: p[i] == runs[i];
      EventsCard(p);
      assert Events(runs) == Events(p) + {runs[n].0};
      assert runs[n].0 !in Events(p);
    }
  }

  /** Bookkeeping of the loop of unbind_all: visiting one more pending event
      after unbind_all_of has taken it out of the table. */
  lemma RunExtend(b: Table, runs: Run, pending: set<string>, e: string, order: seq<string>)
    requires DistinctEvents(runs) && Enumerates(runs, b)
    requires Events(runs) !! pending && Events(runs) + pending == b.Keys
    requires e in pending && IsEnumeration(order, (b - Events(runs))[e].Keys)
    ensures var ext := runs + [(e, order)];
      && DistinctEvents(ext) && Enumerates(ext, b)
      && Events(ext) !! pending - {e} && Events(ext) + (pending - {e}) == b.Keys
      && (b - Events(runs)) - {e} == b - Events(ext)
  {
    var ext := runs + [(e, order)];
    assert forall i | 0 <= i < |runs| :: ext[i] == runs[i];
    assert ext[|runs|] == (e, order);
    forall x | x in Events(ext)
      ensures x in Events(runs) + {e}
    {
      var i :| 0 <= i < |ext| && ext[i].0 == x;
      if i < |runs| {
        assert runs[i].0 == x;
      }
    }
    assert Events(ext) == Events(runs) + {e};
  }

  /** Associativity of concatenation, stated on its own for the same reason as
      UpdateUnchanged and MinusStep. */
  lemma ConcatAssoc(a: seq<Call>, b: seq<Call>, c: seq<Call>)
    ensures (a + b) + c == a + (b + c)
  {
  }

  /** The only run over an empty table visits nothing. */
  lemma RunOfEmpty(runs: Run)
    requires IsRun(runs, map[])
    ensures runs == []
  {
    EventsCard(runs);
  }

  /** unbind_all(): unbind_all_of for every event, in the order visited. */
  function UnbindAll(w: World, runs: Run): (r: World)
    ensures r.bindings.Keys <= w.bindings.Keys && r.next == w.next
    decreases |runs|
  {
    if runs == [] then w
    else
      var n := |runs| - 1;
      UnbindAllOf(UnbindAll(w, runs[..n]), runs[n].0, runs[n].1)
  }

  lemma UnbindAllSnoc(w: World, runs: Run, e: string, order: seq<string>)
    ensures UnbindAll(w, runs + [(e, order)]) == UnbindAllOf(UnbindAll(w, runs), e, order)
  {
    assert (runs + [(e, order)])[..|runs|] == runs;
  }

  lemma {:induction false} UnbindAllKeepsValid(w: World, runs: Run)
    requires Valid(w)
    ensures Valid(UnbindAll(w, runs))
    decreases |runs|
  {
    if runs != [] {
      var n := |runs| - 1;
      UnbindAllKeepsValid(w, runs[..n]);
      UnbindAllOfKeepsValid(UnbindAll(w, runs[..n]), runs[n].0, runs[n].1);
    }
  }

  /** The removal calls issued by a run of unbind_all. */
  function AllRemovals(b: Table, runs: Run): (r: seq<Call>)
    requires Enumerates(runs, b)
    ensures forall i | 0 <= i < |r| :: r[i].DelegateUnbind? && r[i].event in b
    decreases |runs|
  {
    if runs == [] then []
    else
      var n := |runs| - 1;
      assert forall i | 0 <= i < n :: runs[..n][i] == runs[i];
      AllRemovals(b, runs[..n]) + Removals(runs[n].0, b[runs[n].0], runs[n].1)
  }

  lemma {:induction false} UnbindAllPrefix(w: World, runs: Run)
    requires NamesWellFormed(w.bindings) && DistinctEvents(runs) && Enumerates(runs, w.bindings)
    ensures var r := UnbindAll(w, runs);
      && r.bindings == w.bindings - Events(runs)
      && r.log == w.log + AllRemovals(w.bindings, runs)
      && r.next == w.next
    decreases |runs|
  {
    if runs == [] {
      assert w.bindings - Events(runs) == w.bindings;
    } else {
      var n := |runs| - 1;
      var p := runs[..n];
      var e := runs[n].0;
      RunSnoc(runs, w.bindings);
      UnbindAllPrefix(w, p);
      RunStep(w, p, e, runs[n].1, UnbindAll(w, p));
    }
  }

  /** Splitting the last event off a run. */
  lemma RunSnoc(runs: Run, b: Table)
    requires runs != [] && DistinctEvents(runs) && Enumerates(runs, b)
    ensures var n := |runs| - 1; var p := runs[..n];
      && DistinctEvents(p) && Enumerates(p, b)
      && runs == p + [runs[n]]
      && runs[n].0 !in Events(p)
      && Events(runs) == Events(p) + {runs[n].0}
  {
    var n := |runs| - 1;
    var p := runs[..n];
    assert forall i | 0 <= i < n :: p[i] == runs[i];
    assert runs == p + [runs[n]];
  }

  /** One more event of a run of unbind_all, from the state the earlier events left. */
  lemma RunStep(w: World, p: Run, e: string, order: seq<string>, u: World)
    requires NamesWellFormed(w.bindings) && Enumerates(p, w.bindings)
    requires e in w.bindings && e !in Events(p) && IsEnumeration(order, w.bindings[e].Keys)
    requires u.bindings == w.bindings - Events(p)
    requires u.log == w.log + AllRemovals(w.bindings, p) && u.next == w.next
    ensures var r := UnbindAllOf(u, e, order);
      && r.bindings == w.bindings - (Events(p) + {e})
      && r.log == w.log + AllRemovals(w.bindings, p + [(e, order)])
      && r.next == w.next
  {
    assert e in u.bindings && u.bindings[e] == w.bindings[e];
    UnbindAllOfResult(u, e, order);
    var runs := p + [(e, order)];
    assert runs[..|p|] == p;
    var tail := Removals(e, w.bindings[e], order);
    assert AllRemovals(w.bindings, runs) == AllRemovals(w.bindings, p) + tail;
    var r := UnbindAllOf(u, e, order);
    assert r.log == (w.log + AllRemovals(w.bindings, p)) + tail;
    ConcatAssoc(w.log, AllRemovals(w.bindings, p), tail);
    assert (w.bindings - Events(p)) - {e} == w.bindings - (Events(p) + {e});
  }

  /** unbind_all() empties the table and issues one removal call for every
      stored pair, with its handle, and nothing else. */
  lemma UnbindAllEffect(w: World, runs: Run)
    requires Valid(w) && IsRun(runs, w.bindings)
    ensures var r := UnbindAll(w, runs);
      && Valid(r)
      && r.bindings == map[]
      && r.log == w.log + AllRemovals(w.bindings, runs)
      && r.next == w.next
  {
    UnbindAllPrefix(w, runs);
    UnbindAllKeepsValid(w, runs);
    assert w.bindings - Events(runs) == map[];
  }

  /** A second unbind_all() changes nothing, whatever order it visits. */
  lemma UnbindAllTwice(w: World, runs: Run, again: Run)
    requires Valid(w) && IsRun(runs, w.bindings)
    requires IsRun(again, UnbindAll(w, runs).bindings)
    ensures UnbindAll(UnbindAll(w, runs), again) == UnbindAll(w, runs)
  {
    UnbindAllEffect(w, runs);
    RunOfEmpty(again);
  }

  // ---- one-argument unbind ----

  /** unbind(s) as written: it passes the still-undefined local `event` to
      unbind_all_of, which looks up the key "undefined" whatever s is. When that
      key is absent nothing happens; when its inner table is empty the loop does
      not run and the key is deleted; otherwise the first re-entry
      unbind(undefined, method) takes the two-argument path and parsing the
      undefined descriptor throws before anything is removed. */
  function UnbindOneAsWritten(w: World, s: string): (r: (Outcome, World))
    ensures "undefined" !in w.bindings ==> r == (Pass, w)
    ensures "undefined" in w.bindings && w.bindings["undefined"] == map[] ==>
      r == (Pass, World(w.bindings - {"undefined"}, w.log, w.next))
    ensures "undefined" in w.bindings && w.bindings["undefined"] != map[] ==>
      r == (Fail(UndefinedDescriptor), w)
  {
    if "undefined" !in w.bindings then (Pass, w)
    else if w.bindings["undefined"] != map[] then (Fail(UndefinedDescriptor), w)
    else (Pass, World(w.bindings - {"undefined"}, w.log, w.next))
  }

  /** As written, the one-argument unbind never removes a binding and never
      issues a call, whatever descriptor it is given: at most an empty inner
      table is dropped. */
  lemma UnbindOneAsWrittenRemovesNothing(w: World, s: string, e: string, m: string)
    ensures var r := UnbindOneAsWritten(w, s);
      && Lookup(r.1.bindings, e, m) == Lookup(w.bindings, e, m)
      && r.1.log == w.log && r.1.next == w.next
      && r.1.bindings.Keys <= w.bindings.Keys
  {
    var r := UnbindOneAsWritten(w, s);
    if "undefined" in w.bindings && w.bindings["undefined"] == map[] && e == "undefined" {
      assert m !in w.bindings[e];
    }
  }

  /** As written, the argument is ignored: any two descriptors have the same effect. */
  lemma UnbindOneAsWrittenIgnoresArgument(w: World, s: string, t: string)
    ensures UnbindOneAsWritten(w, s) == UnbindOneAsWritten(w, t)
  {
  }

  lemma UnbindOneAsWrittenKeepsValid(w: World, s: string)
    requires Valid(w)
    ensures Valid(UnbindOneAsWritten(w, s).1)
  {
  }

  /** unbind(s) as documented: clear every method of the event s names. */
  function UnbindOne(w: World, s: string, order: seq<string>): (r: World)
    ensures r.bindings.Keys == w.bindings.Keys - {Parse(s).name} && r.next == w.next
  {
    UnbindAllOf(w, Parse(s).name, order)
  }

  /** A manager that has bound "login" to "onlogin" and nothing else. */
  function LoginWorld(): World
  {
    World(map["login" := map["onlogin" := Direct(0)]], [AddListener("login", 0)], 1)
  }

  lemma LoginWorldValid()
    ensures Valid(LoginWorld())
  {
    ActiveSnoc([], AddListener("login", 0));
    assert [] + [AddListener("login", 0)] == LoginWorld().log;
  }

  /** As written, unbind('login') leaves the bindings of "login" in place. */
  lemma UnbindOneAsWrittenKeepsEvent()
    ensures Valid(LoginWorld())
    ensures UnbindOneAsWritten(LoginWorld(), "login") == (Pass, LoginWorld())
    ensures Lookup(UnbindOne(LoginWorld(), "login", ["onlogin"]).bindings, "login", "onlogin") == None
  {
    LoginWorldValid();
    var w := LoginWorld();
    assert "undefined" !in w.bindings;
    assert Parse("login").name == "login";
  }

  /** A manager that has bound "undefined" to "onundefined" and nothing else. */
  function UndefinedWorld(): World
  {
    World(map["undefined" := map["onundefined" := Direct(0)]], [AddListener("undefined", 0)], 1)
  }

  lemma UndefinedWorldValid()
    ensures Valid(UndefinedWorld())
  {
    ActiveSnoc([], AddListener("undefined", 0));
    assert [] + [AddListener("undefined", 0)] == UndefinedWorld().log;
  }

  /** As written, once the event "undefined" holds a method, unbind('login')
      throws and changes nothing. */
  lemma UnbindOneAsWrittenThrows()
    ensures Valid(UndefinedWorld())
    ensures UnbindOneAsWritten(UndefinedWorld(), "login") == (Fail(UndefinedDescriptor), UndefinedWorld())
  {
    UndefinedWorldValid();
    assert "onundefined" in UndefinedWorld().bindings["undefined"];
  }

  /** The corrected one-argument unbind removes the named event and only it,
      one removal call per method. */
  lemma UnbindOneEffect(w: World, s: string, order: seq<string>)
    requires Valid(w)
    ensures Parse(s).name !in w.bindings ==> UnbindOne(w, s, order) == w
    ensures Parse(s).name in w.bindings && IsEnumeration(order, w.bindings[Parse(s).name].Keys) ==>
      var r := UnbindOne(w, s, order);
      && Valid(r)
      && r.bindings == w.bindings - {Parse(s).name}
      && r.log == w.log + Removals(Parse(s).name, w.bindings[Parse(s).name], order)
  {
    var e := Parse(s).name;
    if e in w.bindings && IsEnumeration(order, w.bindings[e].Keys) {
      UnbindAllOfEffect(w, e, order);
    }
  }
}
