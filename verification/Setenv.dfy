/** setenv.c: unsetenv and setenv on the null-terminated array `environ`. */
module Setenv {

  import opened Wrappers

  /** An element of environ: a pointer to a string, or the null pointer. */
  type Ptr = Option<string>

  // ---------------------------------------------------------------------
  // The environment as a list of strings
  // ---------------------------------------------------------------------

  /** The strings up to the first null pointer. */
  function Entries(a: seq<Ptr>): seq<string> {
    if a == [] || a[0] == None then [] else [a[0].value] + Entries(a[1..])
  }

  predicate Terminated(a: seq<Ptr>) {
    exists i :: 0 <= i < |a| && a[i] == None
  }

  predicate ValidName(name: Option<string>) {
    name.Some? && name.value != "" && '=' !in name.value
  }

  /** strncmp(*ep, name, len) == 0 && (*ep)[len] == '='. */
  predicate Matches(entry: string, name: string) {
    name <= entry && |name| < |entry| && entry[|name|] == '='
  }

  /** The entries not named, in their order. */
  function Without(es: seq<string>, name: string): seq<string> {
    if es == [] then []
    else (if Matches(es[0], name) then [] else [es[0]]) + Without(es[1..], name)
  }

  function Lookup(es: seq<string>, name: string): Option<string> {
    if es == [] then None
    else if Matches(es[0], name) then Some(es[0][|name| + 1..])
    else Lookup(es[1..], name)
  }

  function Occurrences(es: seq<string>, name: string): nat {
    if es == [] then 0 else (if Matches(es[0], name) then 1 else 0) + Occurrences(es[1..], name)
  }

  /** An entry belongs to one name only. */
  lemma MatchesOne(entry: string, a: string, b: string)
    requires '=' !in a && '=' !in b && Matches(entry, a) && Matches(entry, b)
    ensures a == b
  {
    assert forall i :: 0 <= i < |a| ==> a[i] in a;
    assert forall i :: 0 <= i < |b| ==> b[i] in b;
  }

  lemma {:induction false} WithoutLookup(es: seq<string>, name: string, other: string)
    requires '=' !in name && '=' !in other
    ensures Lookup(Without(es, name), other) == if other == name then None else Lookup(es, other)
    ensures Occurrences(Without(es, name), name) == 0
  {
    if es != [] {
      WithoutLookup(es[1..], name, other);
      if Matches(es[0], name) {
        if other != name && Matches(es[0], other) {
          MatchesOne(es[0], name, other);
        }
        assert Without(es, name) == Without(es[1..], name);
      } else {
        assert Without(es, name)[1..] == Without(es[1..], name);
      }
    }
  }

  /** A setenv() that fails for lack of memory, having filtered the name, leaves the environment as it
      was if and only if the name was not there. */
  lemma {:induction false} FilterChangesNothingIff(es: seq<string>, name: string)
    ensures |Without(es, name)| == |es| - Occurrences(es, name)
    ensures Without(es, name) == es <==> Occurrences(es, name) == 0
  {
    if es != [] {
      FilterChangesNothingIff(es[1..], name);
      if Occurrences(es, name) == 0 {
        assert es == [es[0]] + es[1..];
      }
    }
  }

  /** The old value is lost. */
  lemma FailureLosesValue()
    ensures Lookup(["A=1"], "A") == Some("1") && Lookup(Without(["A=1"], "A"), "A") == None
  {
    WithoutLookup(["A=1"], "A", "A");
    assert ["A=1"][0][..2] == "A" + "=" && ["A=1"][0][2..] == "1";
  }

  /** Filtering keeps exactly the other entries, whatever they look like. */
  lemma {:induction false} WithoutMembers(es: seq<string>, name: string)
    ensures forall e :: multiset(Without(es, name))[e] == if Matches(e, name) then 0 else multiset(es)[e]
  {
    if es != [] {
      WithoutMembers(es[1..], name);
      assert es == [es[0]] + es[1..];
      assert multiset(es) == multiset{es[0]} + multiset(es[1..]);
      if !Matches(es[0], name) {
        assert multiset(Without(es, name)) == multiset{es[0]} + multiset(Without(es[1..], name));
      } else {
        assert Without(es, name) == Without(es[1..], name);
      }
    }
  }

  lemma {:induction false} LookupAppend(es: seq<string>, entry: string, name: string)
    ensures Lookup(es + [entry], name) ==
            if Lookup(es, name).Some? then Lookup(es, name)
            else if Matches(entry, name) then Some(entry[|name| + 1..]) else None
    ensures Occurrences(es + [entry], name) == Occurrences(es, name) + if Matches(entry, name) then 1 else 0
  {
    if es == [] {
      assert es + [entry] == [entry];
    } else {
      assert (es + [entry])[1..] == es[1..] + [entry];
      LookupAppend(es[1..], entry, name);
    }
  }

  /** The environment after a successful overwriting setenv. */
  function Replaced(es: seq<string>, name: string, value: string): seq<string> {
    Without(es, name) + [name + "=" + value]
  }

  /** Exactly one entry for the name, with the new value; every other lookup as before. */
  lemma ReplacedLookup(es: seq<string>, name: string, value: string, other: string)
    requires '=' !in name && '=' !in other
    ensures Occurrences(Replaced(es, name, value), name) == 1
    ensures Lookup(Replaced(es, name, value), other) == if other == name then Some(value) else Lookup(es, other)
  {
    var entry := name + "=" + value;
    assert Matches(entry, name) && entry[|name| + 1..] == value;
    WithoutLookup(es, name, other);
    WithoutLookup(es, name, name);
    LookupAppend(Without(es, name), entry, name);
    LookupAppend(Without(es, name), entry, other);
    if Matches(entry, other) {
      MatchesOne(entry, name, other);
    }
  }

  // ---------------------------------------------------------------------
  // The array
  // ---------------------------------------------------------------------

  lemma {:induction false} EntriesUpTo(a: seq<Ptr>, n: nat)
    requires n < |a| && a[n] == None && forall i :: 0 <= i < n ==> a[i] != None
    ensures |Entries(a)| == n && forall i :: 0 <= i < n ==> Entries(a)[i] == a[i].value
  {
    if n > 0 {
      EntriesUpTo(a[1..], n - 1);
    }
  }

  lemma {:induction false} EntriesLength(a: seq<Ptr>)
    requires Terminated(a)
    ensures var n := |Entries(a)|; n < |a| && a[n] == None && forall i :: 0 <= i < n ==> a[i] != None
  {
    if a[0] != None {
      var i :| 0 <= i < |a| && a[i] == None;
      assert a[1..][i - 1] == None;
      EntriesLength(a[1..]);
    }
  }

  /** The array holds the strings `es` and then a null pointer. */
  ghost predicate Holds(a: seq<Ptr>, es: seq<string>) {
    |es| < |a| && a[|es|] == None && forall i :: 0 <= i < |es| ==> a[i] == Some(es[i])
  }

  lemma HoldsEntries(a: seq<Ptr>, es: seq<string>)
    requires Holds(a, es)
    ensures Terminated(a) && Entries(a) == es
  {
    EntriesUpTo(a, |es|);
  }

  lemma EntriesHeld(a: seq<Ptr>)
    requires Terminated(a)
    ensures Holds(a, Entries(a))
  {
    EntriesLength(a);
    EntriesUpTo(a, |Entries(a)|);
  }

  function Drop(es: seq<string>, k: nat): seq<string>
    requires k < |es|
  {
    es[..k] + es[k + 1..]
  }

  lemma {:induction false} DropNamed(es: seq<string>, k: nat, name: string)
    requires k < |es| && Matches(es[k], name)
    ensures Without(Drop(es, k), name) == Without(es, name)
  {
    if k == 0 {
      assert Drop(es, k) == es[1..];
    } else {
      assert Drop(es, k)[1..] == Drop(es[1..], k - 1);
      DropNamed(es[1..], k - 1, name);
    }
  }

  lemma {:induction false} NothingNamed(es: seq<string>, name: string)
    requires forall i :: 0 <= i < |es| ==> !Matches(es[i], name)
    ensures Without(es, name) == es
  {
    if es != [] {
      NothingNamed(es[1..], name);
    }
  }

  /** One entry removed by moving all later ones, and the null pointer, back by one. */
  method Shift(a: array<Ptr>, ep: nat, ghost es: seq<string>)
    requires Holds(a[..], es) && ep < |es|
    modifies a
    ensures Holds(a[..], Drop(es, ep))
  {
    ghost var n := |es|;
    var sp := ep;
    while a[sp] != None
      invariant ep <= sp <= n < a.Length
      invariant forall i :: 0 <= i < ep ==> a[i] == Some(es[i])
      invariant forall i :: ep <= i < sp ==> a[i] == if i + 1 == n then None else Some(es[i + 1])
      invariant forall i :: sp <= i < n ==> a[i] == Some(es[i])
      invariant a[n] == None
      decreases n - sp
    {
      a[sp] := a[sp + 1];
      sp := sp + 1;
    }
  }

  /** The loop of unsetenv: the pointer stays where it is after a removal, since the next entry
      has moved there. */
  method RemoveAll(a: array<Ptr>, name: string, ghost start: seq<string>)
    requires Holds(a[..], start)
    modifies a
    ensures Holds(a[..], Without(start, name))
  {
    var ep := 0;
    ghost var es := start;
    while a[ep] != None
      invariant ep <= |es| && Holds(a[..], es)
      invariant Without(es, name) == Without(start, name)
      invariant forall i :: 0 <= i < ep ==> !Matches(es[i], name)
      decreases |es| - ep
    {
      if Matches(a[ep].value, name) {
        DropNamed(es, ep, name);
        Shift(a, ep, es);
        es := Drop(es, ep);
      } else {
        ep := ep + 1;
      }
    }
    NothingNamed(es, name);
  }

  class Environment {
    var environ: array<Ptr>

    ghost predicate Valid()
      reads this, environ
    {
      Terminated(environ[..])
    }

    ghost function Contents(): seq<string>
      reads this, environ
    {
      Entries(environ[..])
    }

    constructor (entries: array<Ptr>)
      requires Terminated(entries[..])
      ensures environ == entries && Valid()
    {
      environ := entries;
    }

    method Unsetenv(name: Option<string>) returns (r: int)
      requires Valid()
      modifies environ
      ensures Valid()
      ensures name == None || name.value == "" || '=' in name.value ==> r == -1 && Contents() == old(Contents())
      ensures name.Some? && name.value != "" && '=' !in name.value ==>
                r == 0 && Contents() == Without(old(Contents()), name.value)
    {
      if !ValidName(name) {
        return -1;
      }
      EntriesHeld(environ[..]);
      RemoveAll(environ, name.value, Contents());
      HoldsEntries(environ[..], Without(old(Contents()), name.value));
      return 0;
    }

    method Getenv(name: string) returns (r: Option<string>)
      requires Valid()
      ensures r == Lookup(Contents(), name)
    {
      ghost var es := Contents();
      EntriesHeld(environ[..]);
      assert es[0..] == es;
      var ep := 0;
      while environ[ep] != None
        invariant 0 <= ep <= |es|
        invariant Lookup(es[ep..], name) == Lookup(es, name)
        decreases |es| - ep
      {
        assert es[ep..][1..] == es[ep + 1..];
        if Matches(environ[ep].value, name) {
          return Some(environ[ep].value[|name| + 1..]);
        }
        ep := ep + 1;
      }
      return None;
    }

    /** putenv() of an entry whose name is not present: a larger array takes its place. It may
        fail for lack of memory. */
    method PutNew(entry: string, memory: bool) returns (r: int)
      requires Valid()
      modifies this`environ
      ensures Valid()
      ensures memory ==> r == 0 && fresh(environ) && Contents() == old(Contents()) + [entry]
      ensures !memory ==> r != 0 && environ == old(environ)
    {
      if !memory {
        return -1;
      }
      ghost var es := Contents();
      EntriesHeld(environ[..]);
      var count := 0;
      while environ[count] != None
        invariant 0 <= count <= |es|
        decreases |es| - count
      {
        count := count + 1;
      }
      var grown := new Ptr[count + 2];
      forall i | 0 <= i < count + 2 {
        grown[i] := if i < count then environ[i] else if i == count then Some(entry) else None;
      }
      environ := grown;
      HoldsEntries(environ[..], es + [entry]);
      return 0;
    }

    method Setenv(name: Option<string>, value: Option<string>, overwrite: int, memory: bool, space: bool)
      returns (r: int)
      requires Valid()
      modifies this, environ
      ensures Valid()
      ensures name == None || name.value == "" || '=' in name.value || value == None ==>
                r == -1 && Contents() == old(Contents())
      ensures name.Some? && name.value != "" && '=' !in name.value && value.Some? ==>
                if Lookup(old(Contents()), name.value).Some? && overwrite == 0 then r == 0 && Contents() == old(Contents())
                else if memory && space then r == 0 && Contents() == Replaced(old(Contents()), name.value, value.value)
                else r == -1 && Contents() == Without(old(Contents()), name.value)
    {
      if !ValidName(name) || value == None {
        return -1;
      }
      var present := Getenv(name.value);
      if present != None && overwrite == 0 {
        return 0;
      }
      var _ := Unsetenv(name);
      if !memory {
        return -1;
      }
      var es := name.value + "=" + value.value;
      var s := PutNew(es, space);
      return if s != 0 then -1 else 0;
    }
  }
}
