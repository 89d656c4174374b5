/** The two pieces of Python's `str` behaviour the core depends on: `lower()`,
    used to recognise a header row, and the ordering of strings, used by
    `sorted()` to put the comparison rows in a deterministic order. */
module Text {

  /** Lower-cases one character (ASCII letters only). */
  function LowerChar(c: char): char
  {
    if 'A' <= c <= 'Z' then (c as int + 32) as char else c
  }

  /** `s.lower()` for strings whose letters are ASCII. */
  function Lower(s: string): (r: string)
    ensures |r| == |s|
    ensures forall i :: 0 <= i < |s| ==> r[i] == LowerChar(s[i])
    ensures forall i :: 0 <= i < |r| ==> !('A' <= r[i] <= 'Z')
  {
    if s == [] then [] else [LowerChar(s[0])] + Lower(s[1..])
  }

  /** A string without upper-case ASCII letters is its own lower-case form. */
  lemma {:induction false} LowerUnchanged(s: string)
    requires forall i :: 0 <= i < |s| ==> !('A' <= s[i] <= 'Z')
    ensures Lower(s) == s
  {
    if s != [] {
      LowerUnchanged(s[1..]);
      assert s == [s[0]] + s[1..];
    }
  }

  /** Python's `a < b` on `str`: code point by code point, a proper prefix first. */
  predicate Below(a: string, b: string): (r: bool)
    ensures r ==> a != b
    ensures |a| < |b| && a == b[..|a|] ==> r
  {
    if a == [] then b != []
    else if b == [] then false
    else if a[0] != b[0] then a[0] < b[0]
    else Below(a[1..], b[1..])
  }

  lemma {:induction false} BelowIrreflexive(a: string)
    ensures !Below(a, a)
  {
    if a != [] {
      BelowIrreflexive(a[1..]);
    }
  }

  lemma {:induction false} BelowTransitive(a: string, b: string, c: string)
    requires Below(a, b) && Below(b, c)
    ensures Below(a, c)
  {
    if a != [] && a[0] == b[0] && b[0] == c[0] {
      BelowTransitive(a[1..], b[1..], c[1..]);
    }
  }

  /** Any two distinct strings are ordered one way or the other, and only one way. */
  lemma {:induction false} BelowTrichotomy(a: string, b: string)
    ensures a == b || Below(a, b) || Below(b, a)
    ensures !(Below(a, b) && Below(b, a))
  {
    if a != [] && b != [] && a[0] == b[0] {
      BelowTrichotomy(a[1..], b[1..]);
      if a[1..] == b[1..] {
        assert a == [a[0]] + a[1..] && b == [b[0]] + b[1..];
      }
    }
  }

  /** Ascending without duplicates: what `sorted(set(...))` produces. */
  predicate StrictlySorted(s: seq<string>)
  {
    forall i, j :: 0 <= i < j < |s| ==> Below(s[i], s[j])
  }

  /** Places `x` into an already strictly sorted sequence, keeping it so. */
  function Insert(x: string, s: seq<string>): (r: seq<string>)
    requires StrictlySorted(s)
    ensures StrictlySorted(r)
    ensures forall y :: y in r <==> y in s || y == x
  {
    if s == [] then [x]
    else if x == s[0] then s
    else if Below(x, s[0]) then
      assert forall j :: 0 < j < |s| ==> Below(x, s[j]) by {
        forall j | 0 < j < |s| ensures Below(x, s[j]) {
          BelowTransitive(x, s[0], s[j]);
        }
      }
      [x] + s
    else
      BelowTrichotomy(x, s[0]);
      var t := Insert(x, s[1..]);
      assert forall y :: y in s[1..] ==> Below(s[0], y);
      [s[0]] + t
  }

  /** `sorted(keys)` for a set of strings: its members, ascending, each once. */
  method SortedKeys(keys: set<string>) returns (ks: seq<string>)
    ensures StrictlySorted(ks)
    ensures forall k :: k in ks <==> k in keys
  {
    ks := [];
    var rest := keys;
    while rest != {}
      invariant rest <= keys
      invariant StrictlySorted(ks)
      invariant forall k :: k in ks <==> k in keys && k !in rest
      decreases rest
    {
      var k :| k in rest;
      ks := Insert(k, ks);
      rest := rest - {k};
    }
  }

  /** A set of strings has only one strictly sorted listing, so the order of
      the comparison output depends on the key set alone. */
  lemma {:induction false} SortedListingUnique(a: seq<string>, b: seq<string>)
    requires StrictlySorted(a) && StrictlySorted(b)
    requires forall k :: k in a <==> k in b
    ensures a == b
  {
    assert a != [] ==> a[0] in b;
    assert b != [] ==> b[0] in a;
    if a != [] {
      var i :| 0 <= i < |b| && b[i] == a[0];
      var j :| 0 <= j < |a| && a[j] == b[0];
      assert i != 0 ==> Below(b[0], a[0]);
      assert j != 0 ==> Below(a[0], b[0]);
      BelowTrichotomy(a[0], b[0]);
      assert i == 0 || j == 0;
      forall k ensures k in a[1..] <==> k in b[1..] {
        if k in a[1..] {
          assert Below(a[0], k);
          BelowIrreflexive(k);
          assert k in a;
          var j' :| 0 <= j' < |b| && b[j'] == k;
          assert b[j'] in b[1..];
        }
        if k in b[1..] {
          assert Below(b[0], k);
          BelowIrreflexive(k);
          assert k in b;
          var i' :| 0 <= i' < |a| && a[i'] == k;
          assert a[i'] in a[1..];
        }
      }
      SortedListingUnique(a[1..], b[1..]);
      assert a == [a[0]] + a[1..] && b == [b[0]] + b[1..];
    }
  }
}
