/**
 The DelegateManager object: a receiver (the names of its methods), the
 binding table it updates in place, and the calls it has issued to the
 listener-registration layer. Each method is tied to the function of module
 Registry that gives its new state from the old one.
 */
module Manager {
  import opened Descriptors
  import opened Registry

  class DelegateManager {
    /** The receiver object, known only by the names of the methods it has. */
    const receiver: set<string>
    /** The `_bindings` table: event name -> method name -> handle. */
    var bindings: Table
    /** The calls issued so far to addEventListener, delegate.bind and delegate.unbind. */
    var log: seq<Call>
    /** The identity the next bound callback will get. */
    var next: nat

    function State(): World
      reads this
    {
      World(bindings, log, next)
    }

    ghost predicate Valid()
      reads this
    {
      Registry.Valid(State())
    }

    /** A new manager holds an empty table and has issued no call. */
    constructor (receiver: set<string>)
      ensures this.receiver == receiver
      ensures State() == Empty && Valid()
    {
      this.receiver := receiver;
      bindings := map[];
      log := [];
      next := 0;
      EmptyValid();
    }

    /** bind(s, methodName) with a descriptor string. */
    method Bind(s: string, methodName: string) returns (r: Outcome)
      requires Valid()
      modifies this
      ensures Valid()
      ensures (r, State()) == BindStep(old(State()), receiver, s, methodName)
    {
      ghost var w0 := State();
      var event := Parse(s);
      var name := event.name;
      var selector := event.selector;
      var m := MethodName(name, methodName);
      if m !in receiver {
        return Fail(MissingMethod(m));
      }
      var fn := next;
      next := next + 1;
      var callback;
      if selector != "" {
        log := log + [DelegateBind(selector, name, fn)];
        callback := Delegated(fn);
      } else {
        log := log + [AddListener(name, fn)];
        callback := Direct(fn);
      }
      var functions := if name in bindings then bindings[name] else map[];
      bindings := bindings[name := functions[m := callback]];
      r := Pass;
      BindKeepsValid(w0, receiver, s, methodName);
    }

    /** bind(map): bind each (descriptor, method name) entry in iteration order. */
    method BindAll(entries: seq<(string, string)>) returns (r: Outcome)
      requires Valid()
      modifies this
      ensures Valid()
      ensures (r, State()) == Registry.BindAll(old(State()), receiver, entries)
    {
      ghost var w0 := State();
      var i := 0;
      while i < |entries|
        invariant 0 <= i <= |entries|
        invariant Valid()
        invariant (Pass, State()) == Registry.BindAll(w0, receiver, entries[..i])
      {
        r := Bind(entries[i].0, entries[i].1);
        BindAllLoopStep(w0, receiver, entries, i, r, State());
        if r.Fail? {
          return;
        }
        i := i + 1;
      }
      assert entries[..i] == entries;
      r := Pass;
    }

    /** Two-argument unbind(s, methodName). */
    method Unbind(s: string, methodName: string)
      requires Valid()
      modifies this
      ensures Valid()
      ensures State() == UnbindStep(old(State()), s, methodName)
    {
      ghost var w0 := State();
      var name := Parse(s).name;
      var m := MethodName(name, methodName);
      if name !in bindings {
        return;
      }
      var functions := bindings[name];
      if m !in functions {
        return;
      }
      var fn := functions[m];
      log := log + [DelegateUnbind(name, fn)];
      bindings := bindings[name := functions - {m}];
      UnbindKeepsValid(w0, s, methodName);
    }

    /** unbind_all_of(e): unbind every method of e, in some iteration order
        (returned as `order`), then delete e from the table. */
    method UnbindAllOf(e: string) returns (ghost order: seq<string>)
      requires Valid()
      modifies this
      ensures Valid()
      ensures e in old(bindings) ==> IsEnumeration(order, old(bindings)[e].Keys)
      ensures State() == Registry.UnbindAllOf(old(State()), e, order)
      ensures e !in old(bindings) ==> State() == old(State())
      ensures e in old(bindings) ==>
        && bindings == old(bindings) - {e}
        && log == old(log) + Removals(e, old(bindings)[e], order)
        && next == old(next)
    {
      ghost var w0 := State();
      order := [];
      if e !in bindings {
        return;
      }
      var pending := bindings[e].Keys;
      while pending != {}
        invariant Valid()
        invariant Distinct(order)
        invariant Elems(order) !! pending && Elems(order) + pending == w0.bindings[e].Keys
        invariant State() == UnbindEach(w0, e, order)
        decreases pending
      {
        var m :| m in pending;
        ghost var before := State();
        UnbindEachSnoc(w0, e, order, m);
        Unbind(e, m);
        OrderExtend(order, pending, m);
        order := order + [m];
        pending := pending - {m};
      }
      ghost var u := State();
      bindings := bindings - {e};
      assert State() == World(u.bindings - {e}, u.log, u.next);
      UnbindAllOfEffect(w0, e, order);
    }

    /** unbind(): unbind_all_of for every event, in some iteration order
        (returned as `runs`), which leaves the table empty. */
    method UnbindAll() returns (ghost runs: Run)
      requires Valid()
      modifies this
      ensures Valid()
      ensures IsRun(runs, old(bindings))
      ensures State() == Registry.UnbindAll(old(State()), runs)
      ensures bindings == map[]
      ensures log == old(log) + AllRemovals(old(bindings), runs) && next == old(next)
      ensures old(bindings) == map[] ==> State() == old(State())
    {
      ghost var w0 := State();
      runs := [];
      var pending := bindings.Keys;
      while pending != {}
        invariant Valid()
        invariant DistinctEvents(runs) && Enumerates(runs, w0.bindings)
        invariant Events(runs) !! pending && Events(runs) + pending == w0.bindings.Keys
        invariant bindings == w0.bindings - Events(runs)
        invariant State() == Registry.UnbindAll(w0, runs)
        decreases pending
      {
        var e :| e in pending;
        ghost var order := UnbindAllOf(e);
        ghost var extended := runs + [(e, order)];
        UnbindAllSnoc(w0, runs, e, order);
        RunExtend(w0.bindings, runs, pending, e, order);
        runs := extended;
        pending := pending - {e};
      }
      UnbindAllEffect(w0, runs);
      if w0.bindings == map[] {
        RunOfEmpty(runs);
      }
    }

    /** unbind(s) as written: s is ignored and unbind_all_of runs on the key
        "undefined"; a non-empty inner table there makes the first re-entered
        two-argument unbind throw while parsing its undefined descriptor. */
    method UnbindOneAsWritten(s: string) returns (r: Outcome)
      requires Valid()
      modifies this
      ensures Valid()
      ensures (r, State()) == Registry.UnbindOneAsWritten(old(State()), s)
    {
      ghost var w0 := State();
      if "undefined" !in bindings {
        return Pass;
      }
      if bindings["undefined"] != map[] {
        return Fail(UndefinedDescriptor);
      }
      bindings := bindings - {"undefined"};
      r := Pass;
      UnbindOneAsWrittenKeepsValid(w0, s);
    }

    /** unbind(s) as documented: every method of the event s names is unbound. */
    method UnbindOne(s: string) returns (ghost order: seq<string>)
      requires Valid()
      modifies this
      ensures Valid()
      ensures Parse(s).name in old(bindings) ==> IsEnumeration(order, old(bindings)[Parse(s).name].Keys)
      ensures State() == Registry.UnbindOne(old(State()), s, order)
    {
      order := UnbindAllOf(Parse(s).name);
    }
  }
}
