/**
 * Name normalisation and the catalog lookup built on it:
 * `normalize_model_name` and `find_matching_model`.
 *
 * `find_matching_model` as written compares the requested make with the
 * catalog's top-level keys, which are segment names, and then the requested
 * model with the makes of that segment.  It is modelled as written
 * (`MatchAsWritten`, `FindMatchingModel`) next to the lookup its comments
 * describe, make first and then model (`MatchCorrected`,
 * `FindMatchingModelCorrected`).
 */
module Names {
  import opened Wrappers
  import opened Table
  import opened PyStr
  import opened Catalog

  // ----- normalize_model_name -----

  /** A character of the `\w` class: ASCII letter, digit or underscore. */
  predicate IsWordChar(c: char) {
    'a' <= c <= 'z' || 'A' <= c <= 'Z' || '0' <= c <= '9' || c == '_'
  }

  /** A character the class `[^\w\s-]` does not match, so the substitution keeps it. */
  predicate Kept(c: char) {
    IsWordChar(c) || IsSpace(c) || c == '-'
  }

  /** `re.sub(r'[^\w\s-]', '', s)`: the kept characters of s, in order. */
  function Strip(s: string): (r: string)
    ensures |r| <= |s|
    ensures forall i :: 0 <= i < |r| ==> Kept(r[i])
    ensures (forall i :: 0 <= i < |s| ==> Kept(s[i])) ==> r == s
  {
    if s == [] then []
    else if Kept(s[0]) then [s[0]] + Strip(s[1..])
    else Strip(s[1..])
  }

  /** A character a normalised name may hold: kept, and unchanged by lower-casing. */
  predicate NormalChar(c: char) {
    Kept(c) && LowerChar(c) == c
  }

  /** Lower-casing keeps a character in or out of the kept class. */
  lemma LowerCharKept(c: char)
    ensures Kept(LowerChar(c)) <==> Kept(c)
    ensures IsSpace(LowerChar(c)) <==> IsSpace(c)
    ensures LowerChar(LowerChar(c)) == LowerChar(c)
  {
  }

  /** Every character of s is a normal character. */
  predicate AllNormal(s: string) {
    forall i :: 0 <= i < |s| ==> NormalChar(s[i])
  }

  /** Every word of ws is made of normal characters. */
  predicate WordsNormal(ws: seq<string>) {
    forall k :: 0 <= k < |ws| ==> AllNormal(ws[k])
  }

  /** Any slice of a string of normal characters is one too. */
  lemma SliceNormal(s: string, a: nat, b: nat)
    requires AllNormal(s) && a <= b <= |s|
    ensures AllNormal(s[a..b])
  {
    forall i | 0 <= i < b - a ensures NormalChar(s[a..b][i]) {
      assert s[a..b][i] == s[a + i];
    }
  }

  /** The first word of `s.split()` followed by the words of the rest. */
  lemma SplitUnfold(s: string)
    requires DropSpaces(s) != []
    ensures var t := DropSpaces(s); var n := WordLength(t);
      0 < n && Split(s) == [t[..n]] + Split(t[n..])
  {
  }

  /** Every word of `s.split()` is made of normal characters when s is. */
  lemma {:induction false} SplitNormal(s: string)
    requires AllNormal(s)
    ensures WordsNormal(Split(s))
    decreases |s|
  {
    var t := DropSpaces(s);
    if t != [] {
      var n := WordLength(t);
      SplitUnfold(s);
      DropSpacesSuffix(s);
      SliceNormal(s, |s| - |t|, |s|);
      SliceNormal(t, 0, n);
      SliceNormal(t, n, |t|);
      SplitNormal(t[n..]);
      ConsNormal(t[..n], Split(t[n..]));
    }
  }

  /** Prepending a word of normal characters keeps every word normal. */
  lemma ConsNormal(w: string, ws: seq<string>)
    requires AllNormal(w) && WordsNormal(ws)
    ensures WordsNormal([w] + ws)
  {
    forall k | 0 <= k < |[w] + ws| ensures AllNormal(([w] + ws)[k]) {
      if k > 0 {
        assert ([w] + ws)[k] == ws[k - 1];
      }
    }
  }

  /** Joining words of normal characters with ' ' gives normal characters only. */
  lemma {:induction false} JoinNormal(ws: seq<string>)
    requires WordsNormal(ws)
    ensures AllNormal(Join(ws))
  {
    if |ws| == 1 {
      assert AllNormal(ws[0]);
    } else if |ws| > 1 {
      var w, rest := ws[0], Join(ws[1..]);
      assert WordsNormal(ws[1..]) by {
        forall k | 0 <= k < |ws[1..]| ensures AllNormal(ws[1..][k]) {
          assert ws[1..][k] == ws[k + 1];
        }
      }
      JoinNormal(ws[1..]);
      assert AllNormal(w);
      assert Join(ws) == w + " " + rest;
      AppendNormal(w, " ");
      AppendNormal(w + " ", rest);
    }
  }

  /** Concatenating strings of normal characters gives one. */
  lemma AppendNormal(a: string, b: string)
    requires AllNormal(a) && AllNormal(b)
    ensures AllNormal(a + b)
  {
    forall i | 0 <= i < |a + b| ensures NormalChar((a + b)[i]) {
      if i >= |a| {
        assert (a + b)[i] == b[i - |a|];
      }
    }
  }

  /**
   * `normalize_model_name(s)`: drop the characters outside `[\w\s-]`,
   * lower-case, and collapse whitespace runs into single spaces.
   */
  function Normalize(s: string): string {
    Join(Split(Lower(Strip(s))))
  }

  /** A normalised name is single-spaced and made of lower-case kept characters only. */
  lemma NormalizeShape(s: string)
    ensures SingleSpaced(Normalize(s))
    ensures AllNormal(Normalize(s))
  {
    var lowered := Lower(Strip(s));
    var words := Split(lowered);
    JoinSingleSpaced(words);
    assert AllNormal(lowered) by {
      forall i | 0 <= i < |lowered| ensures NormalChar(lowered[i]) {
        LowerCharKept(Strip(s)[i]);
      }
    }
    SplitNormal(lowered);
    JoinNormal(words);
  }

  /** Normalising a normalised name changes nothing. */
  lemma NormalizeIdempotent(s: string)
    ensures Normalize(Normalize(s)) == Normalize(s)
  {
    var r := Normalize(s);
    NormalizeShape(s);
    assert Strip(r) == r;
    assert Lower(r) == r;
    JoinSplitSingleSpaced(r);
  }

  /** `re.sub` commutes with lower-casing, because lower-casing keeps the kept class. */
  lemma {:induction false} StripLower(s: string)
    ensures Strip(Lower(s)) == Lower(Strip(s))
  {
    if s != [] {
      LowerCharKept(s[0]);
      assert Lower(s) == [LowerChar(s[0])] + Lower(s[1..]);
      assert Lower(s)[1..] == Lower(s[1..]);
      StripLower(s[1..]);
      if Kept(s[0]) {
        assert Lower([s[0]] + Strip(s[1..])) == [LowerChar(s[0])] + Lower(Strip(s[1..]));
      }
    }
  }

  /** Normalisation ignores letter case. */
  lemma NormalizeIgnoresCase(s: string)
    ensures Normalize(Lower(s)) == Normalize(s)
  {
    StripLower(s);
    LowerIdempotent(Strip(s));
  }

  /** Lower-casing keeps text single-spaced. */
  lemma LowerSingleSpaced(s: string)
    requires SingleSpaced(s)
    ensures SingleSpaced(Lower(s))
  {
    var l := Lower(s);
    forall i | 0 <= i < |s| ensures IsSpace(l[i]) <==> IsSpace(s[i]) {
      LowerCharKept(s[i]);
    }
    forall i | 0 <= i < |l| && IsSpace(l[i]) ensures l[i] == ' ' {
      assert s[i] == ' ';
    }
    forall i | 0 <= i < |l| - 1 ensures !DoubleSpaceAt(l, i) {
      assert !DoubleSpaceAt(s, i);
    }
  }

  /** A single-spaced name of kept characters normalises to its lower-cased form. */
  lemma NormalizeOfClean(s: string)
    requires forall i :: 0 <= i < |s| ==> Kept(s[i])
    requires SingleSpaced(s)
    ensures Normalize(s) == Lower(s)
  {
    assert Strip(s) == s;
    LowerSingleSpaced(s);
    JoinSplitSingleSpaced(Lower(s));
  }

  // ----- find_matching_model -----

  /** The first index at or after i whose key norm maps to target. */
  function MatchFrom<V>(t: Table<V>, norm: string -> string, target: string, i: nat): (k: Option<nat>)
    requires i <= |t|
    ensures k.Some? ==> i <= k.value < |t| && norm(t[k.value].0) == target
    ensures k.Some? ==> forall j :: i <= j < k.value ==> norm(t[j].0) != target
    ensures k.None? ==> forall j :: i <= j < |t| ==> norm(t[j].0) != target
    decreases |t| - i
  {
    if i == |t| then None
    else if norm(t[i].0) == target then Some(i)
    else MatchFrom(t, norm, target, i + 1)
  }

  /**
   * What `find_matching_model` computes, with norm for
   * `normalize_model_name`: the first top-level key (a segment name) that
   * normalises like make, then the first key of that entry (a make) that
   * normalises like model; None stands for `(None, None)`.
   */
  function MatchAsWritten(catalog: Prices, norm: string -> string, make: string, model: string): Option<(string, string)> {
    match MatchFrom(catalog, norm, norm(make), 0)
    case None => None
    case Some(i) =>
      match MatchFrom(catalog[i].1, norm, norm(model), 0)
      case None => None
      case Some(j) => Some((catalog[i].0, catalog[i].1[j].0))
  }

  /** The first key that normalises to target is the key's own first occurrence. */
  lemma FirstMatchIsIndexOf<V>(t: Table<V>, norm: string -> string, target: string, i: nat)
    requires i < |t| && norm(t[i].0) == target
    requires forall j :: 0 <= j < i ==> norm(t[j].0) != target
    ensures HasKey(t, t[i].0) && IndexOf(t, t[i].0) == i
  {
    var k := IndexOf(t, t[i].0);
    assert norm(t[k].0) == target;
  }

  /**
   * `find_matching_model(make, model)` over the given catalog, with norm
   * for `normalize_model_name` (the service passes Normalize): the
   * membership test over the normalised top-level keys, `next` over the same
   * keys, the dictionary lookup, then the scan of that entry's keys.
   */
  method FindMatchingModel(catalog: Prices, norm: string -> string, make: string, model: string)
    returns (r: Option<(string, string)>)
    ensures r == MatchAsWritten(catalog, norm, make, model)
  {
    var normalizedMake := norm(make);
    var normalizedModel := norm(model);
    ghost var first := MatchFrom(catalog, norm, normalizedMake, 0);
    var found := false;
    for i := 0 to |catalog|
      invariant found <==> first.Some? && first.value < i
    {
      if norm(catalog[i].0) == normalizedMake {
        found := true;
      }
    }
    if !found {
      return None;
    }
    var a := 0;
    while norm(catalog[a].0) != normalizedMake
      invariant a <= first.value
      decreases first.value - a
    {
      a := a + 1;
    }
    var actualMake := catalog[a].0;
    FirstMatchIsIndexOf(catalog, norm, normalizedMake, a);
    var models := Get(catalog, actualMake).value;
    for j := 0 to |models|
      invariant MatchFrom(models, norm, normalizedModel, j) == MatchFrom(models, norm, normalizedModel, 0)
    {
      if norm(models[j].0) == normalizedModel {
        return Some((actualMake, models[j].0));
      }
    }
    return None;
  }

  /** Whatever the code as written returns is a segment name and one of its makes, of the requested normal forms. */
  lemma MatchAsWrittenSound(catalog: Prices, norm: string -> string, make: string, model: string)
    ensures var r := MatchAsWritten(catalog, norm, make, model);
      r.Some? ==> exists i, j :: 0 <= i < |catalog| && 0 <= j < |catalog[i].1|
                    && r.value == (catalog[i].0, catalog[i].1[j].0)
                    && norm(catalog[i].0) == norm(make)
                    && norm(catalog[i].1[j].0) == norm(model)
  {
    if MatchAsWritten(catalog, norm, make, model).Some? {
      var i := MatchFrom(catalog, norm, norm(make), 0).value;
      var j := MatchFrom(catalog[i].1, norm, norm(model), 0).value;
      assert MatchAsWritten(catalog, norm, make, model).value == (catalog[i].0, catalog[i].1[j].0);
    }
  }

  /** The code as written finds nothing when no segment name normalises like the requested make. */
  lemma MatchAsWrittenNeedsSegmentName(catalog: Prices, norm: string -> string, make: string, model: string)
    requires forall i :: 0 <= i < |catalog| ==> norm(catalog[i].0) != norm(make)
    ensures MatchAsWritten(catalog, norm, make, model) == None
  {
    assert MatchFrom(catalog, norm, norm(make), 0) == None;
  }

  /** Every make of every segment, in declaration order. */
  function Makes(catalog: Prices): Table<Table<real>> {
    if catalog == [] then [] else catalog[0].1 + Makes(catalog[1..])
  }

  /** Position p of Makes(catalog) is make j of segment i. */
  lemma {:induction false} MakesOrigin(catalog: Prices, p: nat) returns (i: nat, j: nat)
    requires p < |Makes(catalog)|
    ensures i < |catalog| && j < |catalog[i].1| && Makes(catalog)[p] == catalog[i].1[j]
  {
    if p < |catalog[0].1| {
      i, j := 0, p;
    } else {
      var i', j' := MakesOrigin(catalog[1..], p - |catalog[0].1|);
      i, j := i' + 1, j';
    }
  }

  /** Segment i's make j sits in Makes(catalog) at position p. */
  lemma {:induction false} MakesPosition(catalog: Prices, i: nat, j: nat) returns (p: nat)
    requires i < |catalog| && j < |catalog[i].1|
    ensures p < |Makes(catalog)| && Makes(catalog)[p] == catalog[i].1[j]
  {
    if i == 0 {
      p := j;
    } else {
      var q := MakesPosition(catalog[1..], i - 1, j);
      p := |catalog[0].1| + q;
    }
  }

  /**
   * The lookup the comments of `find_matching_model` describe: the first
   * make, across all segments in declaration order, that normalises like
   * make, then the first of its models that normalises like model.
   */
  function MatchCorrected(catalog: Prices, norm: string -> string, make: string, model: string): Option<(string, string)> {
    var makes := Makes(catalog);
    match MatchFrom(makes, norm, norm(make), 0)
    case None => None
    case Some(p) =>
      match MatchFrom(makes[p].1, norm, norm(model), 0)
      case None => None
      case Some(k) => Some((makes[p].0, makes[p].1[k].0))
  }

  /** The corrected lookup over the flattened make list, returning at the first model match. */
  method FindMatchingModelCorrected(catalog: Prices, norm: string -> string, make: string, model: string)
    returns (r: Option<(string, string)>)
    ensures r == MatchCorrected(catalog, norm, make, model)
  {
    var normalizedMake := norm(make);
    var normalizedModel := norm(model);
    var makes := Makes(catalog);
    for p := 0 to |makes|
      invariant MatchFrom(makes, norm, normalizedMake, p) == MatchFrom(makes, norm, normalizedMake, 0)
    {
      if norm(makes[p].0) == normalizedMake {
        var models := makes[p].1;
        for k := 0 to |models|
          invariant MatchFrom(models, norm, normalizedModel, k) == MatchFrom(models, norm, normalizedModel, 0)
        {
          if norm(models[k].0) == normalizedModel {
            return Some((makes[p].0, models[k].0));
          }
        }
        return None;
      }
    }
    return None;
  }

  /** No two keys of t normalise alike. */
  predicate NormalizedUnique<V>(t: Table<V>, norm: string -> string) {
    forall a, b :: 0 <= a < b < |t| ==> norm(t[a].0) != norm(t[b].0)
  }

  /** No two makes normalise alike, nor two models of one make. */
  predicate NamesDistinct(catalog: Prices, norm: string -> string) {
    && NormalizedUnique(Makes(catalog), norm)
    && forall p :: 0 <= p < |Makes(catalog)| ==> NormalizedUnique(Makes(catalog)[p].1, norm)
  }

  /**
   * When names do not clash after normalisation, the corrected lookup finds
   * every catalogued make and model, under any spelling that normalises the same.
   */
  lemma MatchCorrectedFindsListed(catalog: Prices, norm: string -> string, make: string, model: string,
                                  i: nat, j: nat, k: nat)
    requires NamesDistinct(catalog, norm)
    requires i < |catalog| && j < |catalog[i].1| && k < |catalog[i].1[j].1|
    requires norm(make) == norm(catalog[i].1[j].0)
    requires norm(model) == norm(catalog[i].1[j].1[k].0)
    ensures MatchCorrected(catalog, norm, make, model) == Some((catalog[i].1[j].0, catalog[i].1[j].1[k].0))
  {
    var p := MakesPosition(catalog, i, j);
    var makes := Makes(catalog);
    assert MatchFrom(makes, norm, norm(make), 0) == Some(p);
    assert MatchFrom(makes[p].1, norm, norm(model), 0) == Some(k);
  }

  /** Whatever the corrected lookup returns is a catalogued make and model of the requested normal forms. */
  lemma MatchCorrectedSound(catalog: Prices, norm: string -> string, make: string, model: string)
    ensures var r := MatchCorrected(catalog, norm, make, model);
      r.Some? ==> exists i, j, k :: 0 <= i < |catalog| && 0 <= j < |catalog[i].1| && 0 <= k < |catalog[i].1[j].1|
                    && r.value == (catalog[i].1[j].0, catalog[i].1[j].1[k].0)
                    && norm(catalog[i].1[j].0) == norm(make)
                    && norm(catalog[i].1[j].1[k].0) == norm(model)
  {
    var makes := Makes(catalog);
    if MatchCorrected(catalog, norm, make, model).Some? {
      var p := MatchFrom(makes, norm, norm(make), 0).value;
      var k := MatchFrom(makes[p].1, norm, norm(model), 0).value;
      var i, j := MakesOrigin(catalog, p);
      assert MatchCorrected(catalog, norm, make, model).value == (catalog[i].1[j].0, catalog[i].1[j].1[k].0);
    }
  }

  /** ASCII letters and hyphens, separated by single spaces, with none at either end. */
  predicate LetterName(s: string) {
    && (forall i :: 0 <= i < |s| ==> ('a' <= s[i] <= 'z' || 'A' <= s[i] <= 'Z' || s[i] == '-' || s[i] == ' '))
    && (s != [] ==> s[0] != ' ' && s[|s| - 1] != ' ')
    && (forall i :: 0 <= i < |s| - 1 ==> s[i] != ' ' || s[i + 1] != ' ')
  }

  /** A letter name is already clean, so it normalises to its lower-cased form. */
  lemma LetterNameNormal(s: string)
    requires LetterName(s)
    ensures Normalize(s) == Lower(s)
  {
    assert forall i :: 0 <= i < |s| ==> Kept(s[i]);
    assert forall i :: 0 <= i < |s| - 1 ==> !DoubleSpaceAt(s, i);
    NormalizeOfClean(s);
  }

  /** Two letter names normalise alike only when they agree up to case at every common position. */
  lemma LetterNamesDiffer(a: string, b: string, i: nat)
    requires LetterName(a) && LetterName(b) && i < |a| && i < |b|
    requires LowerChar(a[i]) != LowerChar(b[i])
    ensures Normalize(a) != Normalize(b)
  {
    LetterNameNormal(a);
    LetterNameNormal(b);
    assert Lower(a)[i] != Lower(b)[i];
  }

  /** A letter name normalises unlike every letter name with a different first letter. */
  lemma LetterNameUnmatched(names: seq<string>, name: string)
    requires LetterName(name) && name != []
    requires forall j :: 0 <= j < |names| ==> LetterName(names[j]) && names[j] != []
    requires forall j :: 0 <= j < |names| ==> LowerChar(names[j][0]) != LowerChar(name[0])
    ensures forall j :: 0 <= j < |names| ==> Normalize(names[j]) != Normalize(name)
  {
    forall j | 0 <= j < |names|
      ensures Normalize(names[j]) != Normalize(name)
    {
      LetterNamesDiffer(names[j], name, 0);
    }
  }

  /** The segment names are letter names, none starting with a T. */
  lemma SegmentLetterNames()
    ensures forall j :: 0 <= j < |SEGMENTS| ==> LetterName(SEGMENTS[j]) && SEGMENTS[j] != []
    ensures forall j :: 0 <= j < |SEGMENTS| ==> LowerChar(SEGMENTS[j][0]) != 't'
  {
    assert LetterName("Super Luxury");
  }

  /** No segment name normalises like "Toyota". */
  lemma NoSegmentNamedToyota()
    ensures forall j :: 0 <= j < |SEGMENTS| ==> Normalize(SEGMENTS[j]) != Normalize("Toyota")
  {
    SegmentLetterNames();
    assert LetterName("Toyota") && LowerChar("Toyota"[0]) == 't';
    LetterNameUnmatched(SEGMENTS, "Toyota");
  }

  /**
   * With the shipped catalog and normaliser, the code as written cannot find
   * ("Toyota", "Camry"), although the catalog prices it, because "toyota" is
   * no segment name.
   */
  lemma FindMatchingModelMissesToyota()
    ensures MatchAsWritten(BASE_VALUES, Normalize, "Toyota", "Camry") == None
    ensures BASE_VALUES[4].1[0].0 == "Toyota" && BASE_VALUES[4].1[0].1[0].0 == "Camry"
  {
    SegmentNames();
    NoSegmentNamedToyota();
    forall i | 0 <= i < |BASE_VALUES| ensures Normalize(BASE_VALUES[i].0) != Normalize("Toyota") {
      assert Keys(BASE_VALUES)[i] == BASE_VALUES[i].0;
    }
    MatchAsWrittenNeedsSegmentName(BASE_VALUES, Normalize, "Toyota", "Camry");
  }

  /** The makes listed before Toyota, in declaration order. */
  const MAKES_BEFORE_TOYOTA: seq<string> := [
    "Mercedes-Benz", "BMW", "Audi", "Rolls-Royce", "Bentley", "Aston Martin",
    "Ferrari", "Lamborghini", "McLaren", "Lexus", "Porsche", "Tesla"]

  /** A name that starts with a word character normalises to a name starting with it, lower-cased. */
  lemma NormalizeHead(s: string)
    requires s != [] && IsWordChar(s[0])
    ensures Normalize(s) != [] && Normalize(s)[0] == LowerChar(s[0])
  {
    var stripped := Strip(s);
    assert stripped == [s[0]] + Strip(s[1..]);
    var lowered := Lower(stripped);
    assert lowered[0] == LowerChar(s[0]);
    LowerCharKept(s[0]);
    assert !IsSpace(lowered[0]);
    assert DropSpaces(lowered) == lowered;
    WordPrefix(lowered);
    var ws := Split(lowered);
    assert ws[0] == lowered[..WordLength(lowered)];
    assert ws[0][0] == lowered[0];
    assert Join(ws)[0] == ws[0][0];
  }

  /** Two names starting with word characters that differ up to case normalise apart. */
  lemma HeadsDiffer(a: string, b: string)
    requires a != [] && b != [] && IsWordChar(a[0]) && IsWordChar(b[0])
    requires LowerChar(a[0]) != LowerChar(b[0])
    ensures Normalize(a) != Normalize(b)
  {
    NormalizeHead(a);
    NormalizeHead(b);
  }

  /** None of the makes listed before Toyota normalises like "Toyota". */
  lemma MakesBeforeToyotaDiffer()
    ensures forall j :: 0 <= j < |MAKES_BEFORE_TOYOTA| ==> Normalize(MAKES_BEFORE_TOYOTA[j]) != Normalize("Toyota")
  {
    var names := MAKES_BEFORE_TOYOTA;
    var toyota := "Toyota";
    forall j | 0 <= j < |names|
      ensures Normalize(names[j]) != Normalize(toyota)
    {
      if j < 11 {
        assert names[j] != [] && IsWordChar(names[j][0]) && LowerChar(names[j][0]) != 't';
        HeadsDiffer(names[j], toyota);
      } else {
        assert LetterName(names[j]) && LetterName(toyota);
        LetterNamesDiffer(names[j], toyota, 1);
      }
    }
  }

  /** Toyota is the thirteenth make of the shipped catalog, after the makes listed before it. */
  lemma ToyotaPosition()
    ensures |Makes(BASE_VALUES)| > 12 && Makes(BASE_VALUES)[12] == BASE_VALUES[4].1[0]
    ensures forall j :: 0 <= j < 12 ==> Makes(BASE_VALUES)[j].0 == MAKES_BEFORE_TOYOTA[j]
  {
    var c := BASE_VALUES;
    assert Makes(c[4..]) == c[4].1 + Makes(c[5..]);
    assert Makes(c[3..]) == c[3].1 + Makes(c[4..]);
    assert Makes(c[2..]) == c[2].1 + Makes(c[3..]);
    assert Makes(c[1..]) == c[1].1 + Makes(c[2..]);
    assert Makes(c) == c[0].1 + Makes(c[1..]);
    assert Makes(c) == c[0].1 + c[1].1 + c[2].1 + c[3].1 + c[4].1 + Makes(c[5..]);
  }

  /** The corrected lookup returns the first make that normalises like make, with the first of its matching models. */
  lemma MatchCorrectedAt(catalog: Prices, norm: string -> string, make: string, model: string, p: nat, k: nat)
    requires p < |Makes(catalog)| && norm(Makes(catalog)[p].0) == norm(make)
    requires forall j :: 0 <= j < p ==> norm(Makes(catalog)[j].0) != norm(make)
    requires k < |Makes(catalog)[p].1| && norm(Makes(catalog)[p].1[k].0) == norm(model)
    requires forall j :: 0 <= j < k ==> norm(Makes(catalog)[p].1[j].0) != norm(model)
    ensures MatchCorrected(catalog, norm, make, model) == Some((Makes(catalog)[p].0, Makes(catalog)[p].1[k].0))
  {
    var makes := Makes(catalog);
    assert MatchFrom(makes, norm, norm(make), 0) == Some(p);
    assert MatchFrom(makes[p].1, norm, norm(model), 0) == Some(k);
  }

  /** The corrected lookup finds ("Toyota", "Camry") in the shipped catalog. */
  lemma FindMatchingModelCorrectedFindsToyota()
    ensures MatchCorrected(BASE_VALUES, Normalize, "Toyota", "Camry") == Some(("Toyota", "Camry"))
  {
    ToyotaPosition();
    MakesBeforeToyotaDiffer();
    MatchCorrectedAt(BASE_VALUES, Normalize, "Toyota", "Camry", 12, 0);
  }
}
