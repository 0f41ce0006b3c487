/**
 * The trim list of the `/trims/{make}/{model}` endpoint: the basic trims,
 * the trims of the make's segment and the make's own trims, without
 * repeats, in ascending order.  The catalog that classifies the make is a
 * parameter; the service passes BASE_VALUES.
 */
module Trims {
  import opened PyStr
  import opened Catalog
  import opened Valuation

  /** The trims offered for make: basic, segment and make trims together. */
  predicate Offered(catalog: Prices, make: string, t: string) {
    t in BASIC_TRIMS || t in CategoryTrims(CarCategory(catalog, make)) || t in MakeTrims(make)
  }

  /** trims is `sorted(all_trims)` for make: strictly ascending, holding exactly the offered trims. */
  ghost predicate TrimListFor(catalog: Prices, make: string, trims: seq<string>) {
    && StrictlySorted(trims)
    && forall t :: t in trims <==> Offered(catalog, make, t)
  }

  /** `sorted(set(candidates))`, inserting each candidate at its place in a sorted list. */
  method SortedSet(candidates: seq<string>) returns (sorted: seq<string>)
    ensures StrictlySorted(sorted)
    ensures forall t :: t in sorted <==> t in candidates
  {
    sorted := [];
    for i := 0 to |candidates|
      invariant StrictlySorted(sorted)
      invariant forall t :: t in sorted <==> t in candidates[..i]
    {
      assert candidates[..i + 1] == candidates[..i] + [candidates[i]];
      sorted := InsertSorted(sorted, candidates[i]);
    }
    assert candidates[..|candidates|] == candidates;
  }

  lemma ConcatMembers(a: seq<string>, b: seq<string>, c: seq<string>)
    ensures forall t :: t in a + b + c <==> t in a || t in b || t in c
  {
  }

  /**
   * `get_trims(make, model)`: classifies the make, then gathers the basic,
   * segment and make trims into a set and sorts it.  The model name is not
   * used, as in the service.
   */
  method GetTrims(catalog: Prices, make: string, model: string) returns (trims: seq<string>)
    ensures TrimListFor(catalog, make, trims)
  {
    var category := GetCarCategory(catalog, make);
    var categoryTrims := CategoryTrims(category);
    var makeTrims := MakeTrims(make);
    ConcatMembers(BASIC_TRIMS, categoryTrims, makeTrims);
    trims := SortedSet(BASIC_TRIMS + categoryTrims + makeTrims);
  }

  /** A strictly sorted list lists its first element once. */
  lemma HeadOnce(s: seq<string>)
    requires StrictlySorted(s) && s != []
    ensures forall x :: x in s[1..] <==> x in s && x != s[0]
  {
    LexIrreflexive(s[0]);
    forall x | x in s && x != s[0] ensures x in s[1..] {
      var k :| 0 <= k < |s| && s[k] == x;
      assert s[1..][k - 1] == x;
    }
  }

  lemma HasHead(s: seq<string>)
    requires s != []
    ensures s[0] in s
  {
  }

  /** No trim appears twice in a strictly sorted list. */
  lemma StrictlySortedDistinct(s: seq<string>)
    requires StrictlySorted(s)
    ensures forall i, j :: 0 <= i < j < |s| ==> s[i] != s[j]
  {
    forall i, j | 0 <= i < j < |s| ensures s[i] != s[j] {
      LexIrreflexive(s[i]);
    }
  }

  /** A set has one strictly sorted listing: two with the same members are equal. */
  lemma {:induction false} StrictlySortedUnique(a: seq<string>, b: seq<string>)
    requires StrictlySorted(a) && StrictlySorted(b)
    requires forall x :: x in a <==> x in b
    ensures a == b
    decreases |a|
  {
    if a == [] {
      if b != [] {
        HasHead(b);
        assert false;
      }
    } else {
      assert a[0] in b;
      assert b != [] && b[0] in a;
      if a[0] != b[0] {
        var j :| 0 <= j < |b| && b[j] == a[0];
        var i :| 0 <= i < |a| && a[i] == b[0];
        assert LexLess(b[0], a[0]) && LexLess(a[0], b[0]);
        LexAsymmetric(a[0], b[0]);
      }
      HeadOnce(a);
      HeadOnce(b);
      StrictlySortedUnique(a[1..], b[1..]);
      assert a == [a[0]] + a[1..] && b == [b[0]] + b[1..];
    }
  }

  /** Whatever list `get_trims` returns for make is the one sorted listing of the offered trims. */
  lemma TrimListDetermined(catalog: Prices, make: string, a: seq<string>, b: seq<string>)
    requires TrimListFor(catalog, make, a) && TrimListFor(catalog, make, b)
    ensures a == b
  {
    StrictlySortedUnique(a, b);
  }

  /** Every basic trim is offered for every make, once. */
  lemma BasicTrimsOffered(catalog: Prices, make: string, trims: seq<string>)
    requires TrimListFor(catalog, make, trims)
    ensures forall t :: t in BASIC_TRIMS ==> t in trims
    ensures forall i, j :: 0 <= i < j < |trims| ==> trims[i] != trims[j]
  {
    StrictlySortedDistinct(trims);
  }

  /** The trims of a make that no segment lists and that has no trims of its own. */
  const UNLISTED_MAKE_TRIMS: seq<string> := ["Base", "L", "LE", "Limited", "Premium", "SE", "Sport", "XLE"]

  lemma UnlistedMakeTrimsSorted()
    ensures StrictlySorted(UNLISTED_MAKE_TRIMS)
    ensures forall t :: t in UNLISTED_MAKE_TRIMS <==> t in BASIC_TRIMS || t in CategoryTrims("Mainstream")
  {
  }

  /** A make that no segment lists and that has no trims of its own gets the basic and mainstream trims. */
  lemma TrimsOfUnlistedMake(catalog: Prices, make: string, trims: seq<string>)
    requires !KnownMake(catalog, make) && make !in TRIM_MAKES
    requires TrimListFor(catalog, make, trims)
    ensures trims == UNLISTED_MAKE_TRIMS
  {
    CarCategoryOfUnknownMake(catalog, make);
    UnlistedMakeTrimsSorted();
    StrictlySortedUnique(trims, UNLISTED_MAKE_TRIMS);
  }
}
