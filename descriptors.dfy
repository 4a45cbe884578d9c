/**
 This module models the parser of event descriptors: a string of the form
 "event" or "event selector ..." is split on single spaces, the first token is
 the event name and the remaining tokens, rejoined with single spaces, are the
 selector (empty when the selector is absent).
 */
module Descriptors {

  /** The parsed form of a descriptor string. */
  datatype Descriptor = Descriptor(name: string, selector: string)

  /** Splitting on every single space, as a string's split(' ') does: the
      empty string gives one empty token and adjacent spaces give empty tokens. */
  function Split(s: string): (parts: seq<string>)
    ensures |parts| >= 1
    decreases |s|
  {
    if s == [] then [""]
    else
      var rest := Split(s[1..]);
      if s[0] == ' ' then [""] + rest
      else [[s[0]] + rest[0]] + rest[1..]
  }

  /** Joining tokens with single spaces, as an array's join(' ') does. */
  function Join(parts: seq<string>): (r: string)
    ensures |parts| >= 1 ==> parts[0] <= r
  {
    if |parts| == 0 then ""
    else if |parts| == 1 then parts[0]
    else parts[0] + " " + Join(parts[1..])
  }

  /** Joining the tokens of a split gives back the original string. */
  lemma {:induction false} JoinSplit(s: string)
    ensures Join(Split(s)) == s
    decreases |s|
  {
    if s != [] {
      var rest := Split(s[1..]);
      JoinSplit(s[1..]);
      if s[0] == ' ' {
        assert Split(s) == [""] + rest;
        assert ([""] + rest)[1..] == rest;
      } else {
        var parts := [[s[0]] + rest[0]] + rest[1..];
        assert Split(s) == parts;
        if |rest| > 1 {
          assert parts[1..] == rest[1..];
        }
        assert s == [s[0]] + s[1..];
      }
    }
  }

  /** Splitting the join of space-free tokens gives the tokens back. */
  lemma {:induction false} SplitJoin(parts: seq<string>)
    requires |parts| >= 1
    requires forall i | 0 <= i < |parts| :: ' ' !in parts[i]
    ensures Split(Join(parts)) == parts
    decreases |parts|
  {
    if |parts| == 1 {
      SplitTokens(parts[0]);
      JoinSplit(parts[0]);
    } else {
      var rest := parts[1..];
      assert forall i | 0 <= i < |rest| :: rest[i] == parts[i + 1];
      SplitJoin(rest);
      SplitAfterToken(parts[0], Join(rest));
      assert parts == [parts[0]] + rest;
    }
  }

  /** No token of a split contains a space; there is more than one token
      exactly when the string contains a space. */
  lemma {:induction false} SplitTokens(s: string)
    ensures forall i | 0 <= i < |Split(s)| :: ' ' !in Split(s)[i]
    ensures |Split(s)| == 1 <==> ' ' !in s
    decreases |s|
  {
    if s != [] {
      SplitTokens(s[1..]);
      var rest := Split(s[1..]);
      assert s == [s[0]] + s[1..];
      if s[0] != ' ' {
        var parts := [[s[0]] + rest[0]] + rest[1..];
        assert Split(s) == parts;
        forall i | 0 <= i < |parts|
          ensures ' ' !in parts[i]
        {
          if i > 0 {
            assert parts[i] == rest[i];
          }
        }
      }
    }
  }

  /** parse: the name is everything before the first space and
      the selector everything after it. */
  function Parse(s: string): (d: Descriptor)
    ensures ' ' !in d.name
    ensures ' ' in s ==> s == d.name + " " + d.selector
    ensures ' ' !in s ==> d == Descriptor(s, "")
  {
    var parts := Split(s);
    JoinSplit(s);
    SplitTokens(s);
    Descriptor(parts[0], Join(parts[1..]))
  }

  /** A parsed name parses to itself with an empty selector; this is what lets
      a stored event name be passed back through the two-argument unbind. */
  lemma ParseOfName(s: string)
    ensures Parse(Parse(s).name) == Descriptor(Parse(s).name, "")
  {
  }

  /** The name and selector are determined by the first space: if the string
      is a space-free prefix, a space and a rest, the prefix is the name and
      the rest, spaces included, is the selector. */
  lemma ParseAtFirstSpace(name: string, rest: string)
    requires ' ' !in name
    ensures Parse(name + " " + rest) == Descriptor(name, rest)
  {
    SplitAfterToken(name, rest);
    JoinSplit(rest);
  }

  /** Splitting a space-free token followed by a space yields that token followed
      by the split of the rest. */
  lemma {:induction false} SplitAfterToken(name: string, rest: string)
    requires ' ' !in name
    ensures Split(name + " " + rest) == [name] + Split(rest)
    decreases |name|
  {
    var s := name + " " + rest;
    if name == [] {
      assert s[1..] == rest;
    } else {
      var tail := name[1..];
      assert s[0] == name[0] && s[1..] == tail + " " + rest;
      SplitAfterToken(tail, rest);
      assert [name[0]] + tail == name;
    }
  }
}
