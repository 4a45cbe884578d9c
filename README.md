# delegate-manager in Dafny

A model of `DelegateManager`, a small registry that binds DOM events (optionally
delegated through a CSS selector) to methods of a receiver object, and that can
later unbind one pair, every method of one event, or everything.

The manager owns a two-level table `_bindings[eventName][methodName] -> handle`.

- `bind(descriptor, method)` parses the descriptor `"event selector..."`. It
  resolves the method name, which defaults to `"on" + event`. It registers the
  receiver's method, through the delegation layer when a selector is given and
  directly on the target otherwise. Then it stores the handle in the table.
- `bind_all(map)` binds every entry of a map.
- `unbind(descriptor, method)` removes one pair.
- `unbind_all_of(event)` removes every method of one event, then the event.
- `unbind()` does `unbind_all_of` for every event.

The project has three modules.

- `Descriptors` (`descriptors.dfy`) is the descriptor parser. `Split` and `Join`
  behave like a string's `split(' ')` and an array's `join(' ')`, and `Parse`
  takes the first token as the name and rejoins the rest as the selector.
- `Registry` (`registry.dfy`) is the state as a value, `World(bindings, log,
  next)`, with one function per operation and the lemmas about them.
  - `bindings` is the table.
  - `log` is the sequence of calls made to the listener layer: `AddListener`,
    `DelegateBind` and `DelegateUnbind`.
  - `next` is the identity the next bound callback gets.
  - A handle is `Direct(fn)` when the callback was added with addEventListener,
    or `Delegated(fn)` when it came from the delegation layer.
  - `Active(log)` is the set of (event, handle) registrations the log leaves live.
  - `Valid` is the invariant of every reachable state. Every key is a parsed name
    and every method name is non-empty. Every handle is a live registration of a
    callback already created. No two entries share a callback.
- `Manager` (`manager.dfy`) is the `DelegateManager` class. It has the table,
  the log and the counter as fields, and methods that update them in place.
  - `BindAll`, `UnbindAllOf` and `UnbindAll` are loops, like the for-in loops of
    the source.
  - Each method is proved to take the object from `old(State())` to the state
    the corresponding `Registry` function gives. `Bind` and `Unbind` are the
    in-place counterparts of `BindStep` and `UnbindStep` and follow them step
    by step; the loops are proved against the folds `BindAll`, `UnbindEach`
    and `UnbindAll`.

For-in iteration order is a parameter of the model. `UnbindAllOf` and
`UnbindAll` visit their key snapshot in an arbitrary order and return that order
as the ghost result `order` or `runs`; the specification functions take it as
an argument, and the lemmas hold for every order that lists each key exactly
once. `BindAll` takes the map it binds as a sequence of (descriptor, method)
entries in iteration order; a sequence may repeat a descriptor, which an object
cannot, so this is a generalisation.

## Model

| member | source | states |
|---|---|---|
| Descriptors.Split | index.js:216 | splitting on single spaces always gives at least one token |
| Descriptors.Join | index.js:218 | joining with single spaces; the first token is a prefix of the result |
| Descriptors.SplitJoin | index.js:216-218 | splitting the join of one or more space-free tokens gives the tokens back, the other direction of the round trip |
| Descriptors.JoinSplit | index.js:216-218 | joining the tokens of a split with single spaces gives the original string back |
| Descriptors.SplitTokens | index.js:216 | no token contains a space; there is a single token exactly when the string has no space |
| Descriptors.Parse | index.js:215-221 | the name has no space; if the string has a space it is name, one space, selector; otherwise the name is the whole string and the selector is empty |
| Descriptors.ParseOfName | index.js:141 | a parsed name parses to itself with an empty selector, which is what lets unbind_all_of pass a stored key back through unbind |
| Descriptors.ParseAtFirstSpace | index.js:215-221 | for a space-free prefix, a space and any rest, the prefix is the name and the rest, inner spaces included, is the selector |
| Descriptors.SplitAfterToken | index.js:216 | a space-free token followed by a space splits into that token followed by the split of the rest |
| Registry.MethodName | index.js:74 | the resolved method is the given one when non-empty, otherwise "on" followed by the event name, and it is never empty |
| Registry.Apply | index.js:79-81 | the effect of one call on the live registrations of the listener layer that index.js:79, 81 and 157 call: a registration never takes one away and makes its own (event, handle) live, direct for addEventListener and delegated for delegate.bind; a removal takes away exactly its own (event, handle) and keeps every other |
| Registry.Active | index.js:79-81 | the registrations a log leaves live, standing for the state of that listener layer; it has no contract of its own: ActiveSnoc states its step and the invariant Valid relates it to the table |
| Registry.ActiveSnoc | index.js:157 | one more call changes the live registrations by exactly that call's Apply |
| Registry.BindStep | index.js:63-89 | bind fails with the missing method, leaving the state unchanged, exactly when the receiver lacks the resolved method; on success the pair holds a fresh handle, delegated exactly when the selector is non-empty; one registration call is logged and the counter advances by one |
| Registry.BindStepOthers | index.js:85-86 | a successful bind changes no other (event, method) pair and adds the event name to the table |
| Registry.BindKeepsValid | index.js:63-89 | bind preserves the state invariant |
| Registry.UnbindStep | index.js:139-161 | a pair not in the table changes nothing and issues no call; a present pair issues one removal call with the stored handle, deletes only that method, keeps the (possibly empty) inner table, and leaves every other pair unchanged |
| Registry.UnbindKeepsValid | index.js:139-161 | the two-argument unbind preserves the state invariant |
| Registry.UnbindIdempotent | index.js:145-158 | unbinding a pair a second time changes nothing |
| Registry.BindThenUnbind | index.js:78-86 | bind followed by unbind of the same pair issues the removal with the handle just stored, so that listener is no longer live, and restores every other pair |
| Registry.RebindLeavesListenerLive | index.js:85-86 | binding a pair twice and then unbinding it leaves the first listener live although no entry holds its handle |
| Registry.RebindForgets | index.js:85-86 | after rebind and unbind, no entry of the table holds the first handle |
| Registry.RebindActive | index.js:79-81 | a registration stays live after a later registration and the removal of a different handle |
| Registry.BindAll | index.js:107-113 | bind_all succeeds exactly when every entry resolves to a method of the receiver |
| Registry.BindAllPass | index.js:107-113 | a successful bind_all creates one callback per entry and leaves every entry's pair bound |
| Registry.BindStepAllBound | index.js:85-86 | a successful bind keeps the earlier entries bound and binds the new one |
| Registry.BindAllSnoc | index.js:109-111 | bind_all over one more entry is bind_all over the prefix followed by one bind, unless the prefix failed |
| Registry.BindAllLoopStep | index.js:109-111 | one loop iteration: a successful bind extends the bound prefix, and a failed one is the outcome of the whole map |
| Registry.BindAllAppend | index.js:109-111 | bind_all over two concatenated maps is bind_all over the first, then over the second from the state it left, unless the first failed |
| Registry.BindAllStopsAtFirstMissing | index.js:109-111 | if entry k is the first with a missing method, bind_all fails with that method and leaves exactly the entries before k bound |
| Registry.BindAllAfterFail | index.js:109-111 | once a prefix has failed, the rest of the map changes nothing, as the throw ends the loop |
| Registry.BindAllKeepsValid | index.js:107-113 | bind_all preserves the state invariant |
| Registry.AllResolveSnoc | index.js:109-111 | every entry resolves exactly when every entry of the prefix does and the last one does |
| Registry.DistinctCard | index.js:197 | an order without repeats has as many distinct keys as elements |
| Registry.Removals | index.js:197-198 | one removal call per visited method, in visiting order, each with the handle stored for that method |
| Registry.UnbindEach | index.js:197-199 | the loop of unbind_all_of, a two-argument unbind per visited method: it keeps the set of event names and the callback counter |
| Registry.UnbindEachSnoc | index.js:197-199 | visiting one more method is one more two-argument unbind |
| Registry.OrderExtend | index.js:197 | visiting one more pending key keeps the order free of repeats and disjoint from what is still pending |
| Registry.UnbindEachEffect | index.js:197-199 | unbinding, in turn, each method of a stored, space-free event name removes exactly those methods and logs exactly their removal calls |
| Registry.UnbindEachKeepsValid | index.js:197-199 | the loop of unbind_all_of preserves the state invariant |
| Registry.UnbindPresent | index.js:151-158 | unbinding a stored method of a stored event deletes that method and logs its removal |
| Registry.UnbindAllOf | index.js:189-203 | an absent event changes nothing; otherwise the key e is gone and every other event name stays; the callback counter is unchanged |
| Registry.UnbindAllOfEffect | index.js:189-203 | unbind_all_of on a present event deletes exactly that key, issues one removal call per method with its stored handle, and preserves the invariant |
| Registry.UnbindAllOfResult | index.js:189-203 | the same effect, for any table whose event name has no space and whose method names are non-empty |
| Registry.UnbindAllOfAbsent | index.js:193-195 | unbind_all_of on an absent event changes nothing |
| Registry.UnbindAllOfKeepsValid | index.js:189-203 | unbind_all_of preserves the state invariant |
| Registry.EventsCard | index.js:174 | a run that visits each event once has as many events as steps |
| Registry.RunExtend | index.js:174-176 | visiting one more pending event extends a run without repeating an event |
| Registry.RunOfEmpty | index.js:174 | the only run over an empty table is the empty one |
| Registry.UnbindAll | index.js:170-179 | the fold of unbind_all_of over a run: it adds no event name and keeps the callback counter (its full effect is UnbindAllEffect) |
| Registry.AllRemovals | index.js:174-176 | the calls a run of unbind_all issues: only removal calls, each for an event of the table |
| Registry.RunSnoc | index.js:174 | splitting the last event off a run keeps it a run over the rest, with that event not among the earlier ones |
| Registry.UnbindAllSnoc | index.js:174-176 | one more visited event is one more unbind_all_of |
| Registry.UnbindAllKeepsValid | index.js:170-179 | unbind_all preserves the state invariant |
| Registry.UnbindAllPrefix | index.js:174-176 | after part of a run, exactly the visited events are gone and exactly their removal calls are logged |
| Registry.RunStep | index.js:174-176 | one more event of a run, from the state the earlier ones left |
| Registry.UnbindAllEffect | index.js:170-179 | unbind_all empties the table, issues one removal call for every stored pair with its handle and nothing else, and preserves the invariant |
| Registry.UnbindAllTwice | index.js:170-179 | a second unbind_all changes nothing, whatever order it visits |
| Registry.UnbindOneAsWritten | index.js:135-136 | the one-argument unbind as written looks up the key "undefined" whatever the argument: absent, nothing changes; an empty inner table, the key is deleted; otherwise it throws (the re-entered unbind(undefined, method) at index.js:198 takes the two-argument path and parse fails at index.js:216) and nothing changes |
| Registry.UnbindOneAsWrittenRemovesNothing | index.js:135-136 | as written, it never removes a binding, never issues a call and adds no event name |
| Registry.UnbindOneAsWrittenIgnoresArgument | index.js:136 | as written, any two arguments have the same effect |
| Registry.UnbindOneAsWrittenKeepsValid | index.js:135-136 | as written, it preserves the state invariant |
| Registry.UnbindOneAsWrittenKeepsEvent | index.js:135-136 | as written, unbind('login') on a table holding only "login" passes and changes nothing, while the corrected form removes the pair |
| Registry.UnbindOneAsWrittenThrows | index.js:189-198 | as written, once the event "undefined" holds a method, unbind('login') throws and changes nothing |
| Registry.UnbindOne | index.js:117-123 | the one-argument unbind as documented: the named event is gone, every other event name stays, and the callback counter is unchanged |
| Registry.UnbindOneEffect | index.js:117-123 | the corrected one-argument unbind removes the named event and only it, with one removal call per method |
| Registry.EmptyValid | index.js:44 | the empty initial state satisfies the invariant |
| Manager.DelegateManager.constructor | index.js:37-45 | a new manager has an empty table, has issued no call, and is valid |
| Manager.DelegateManager.Bind | index.js:63-89 | the new state and outcome are those of BindStep on the old state; the invariant holds |
| Manager.DelegateManager.BindAll | index.js:107-113 | the loop binds the entries one at a time, and its outcome and new state are those of bind_all on the old state |
| Manager.DelegateManager.Unbind | index.js:139-161 | the new state is that of UnbindStep on the old state |
| Manager.DelegateManager.UnbindAllOf | index.js:189-203 | the loop visits every method of the event once, and the new state is unbind_all_of's: the key is gone and one removal call per method is logged; an absent event changes nothing |
| Manager.DelegateManager.UnbindAll | index.js:170-179 | the loop visits every event once, and the table ends empty with one removal call logged per stored pair; on an empty table nothing changes |
| Manager.DelegateManager.UnbindOneAsWritten | index.js:135-136 | the one-argument unbind as written: its outcome and new state are those of Registry.UnbindOneAsWritten, so it never removes a binding, and throws when the event "undefined" holds a method |
| Manager.DelegateManager.UnbindOne | index.js:117-123 | the one-argument unbind as documented: it visits every method of the event the descriptor names once, and the new state is that of Registry.UnbindOne |

## Left out

- The listener layer is modelled only by the calls made to it, recorded in `log`. This covers `target.addEventListener`, `delegate.bind` and `delegate.unbind` (index.js:79, 81, 157). `Active` assumes that `delegate.unbind` removes a registration of either kind, as the source relies on. The `delegate` module is not part of this model.
- The `target` element is not modelled: every call goes to the same target.
- Manager.DelegateManager fixes the receiver's set of method names for the object's whole life (`const receiver`), while the source's `this.obj` is a live object that may gain or lose methods between calls. `Registry.BindStep` takes the receiver per call, so the specification functions do not depend on this.
- `obj[method].bind(obj)` (index.js:75) is modelled as the creation of a fresh callback identity `next`. The receiver is modelled as the set of its method names. Calling a method it lacks throws in the source; the model returns `Fail(MissingMethod(m))` with the state unchanged. The TypeError of parsing an undefined descriptor is `Fail(UndefinedDescriptor)`. Other exceptions are not modelled.
- An absent, undefined or empty `method` argument is the empty string in the model, which is the case `method || 'on' + name` replaces. Other falsy or non-string values of `method` are not modelled.
- The runtime type dispatch of `bind` on a plain object (index.js:64-66) is not modelled: `Bind` and `BindAll` are separate methods. The `new`-less constructor call (index.js:38-40) is not modelled either.
- The chaining return value `this` is not modelled.
- For-in iteration order is not modelled. `UnbindAllOf` and `UnbindAll` visit their key snapshot in an arbitrary order, which they return as a ghost result; `BindAll` binds the entries in the order of the sequence it is given. Keys inherited through JavaScript prototypes, such as `toString`, are not modelled: the table holds only its own keys.
- Event delivery and the firing of callbacks are not modelled; they belong to the host's event loop.
- The dispatch of `unbind` on its argument count (index.js:132-137) is modelled as three separate methods. `Unbind` is the two-argument form, `UnbindAll` is the no-argument form, and `UnbindOneAsWritten` / `UnbindOne` are the one-argument form.
- test/index.js is a browser page driven by clicks and holds no logic to model.

## Findings

| source | as written | input that shows it | evidently intended | confidence | as-written member | corrected member |
|---|---|---|---|---|---|---|
| index.js:135-136 | one-argument `unbind` calls `unbind_all_of(event)`, where `event` is the hoisted local declared at line 141 and still undefined. So it ignores its argument and looks up the key "undefined". When that key holds a method, the re-entered `unbind(undefined, method)` throws in `parse`. In no case does it remove a binding | a manager with `bind('login')` done, then `unbind('login')`: the "login" binding stays, with its listener | clear every method of the event named by the argument, as the comment at index.js:117-123 shows with `events.unbind('login')` | high; not executed | Registry.UnbindOneAsWrittenKeepsEvent | Registry.UnbindOneEffect |
