/** Version strings and the ordering the registry uses to pick its default model
    (`_is_newer` in mlserver/registry.py). */
module Versions {
  import opened Wrappers

  /** Python truthiness of an `Optional[str]`: `None` and `""` are both false. */
  predicate Truthy(v: Option<string>)
  {
    v.Some? && v.value != ""
  }

  /** The strings `int(...)` accepts in this model: one or more decimal digits. */
  predicate IsDecimal(s: string)
  {
    |s| > 0 && forall i :: 0 <= i < |s| ==> '0' <= s[i] <= '9'
  }

  function DecimalValue(s: string): (n: nat)
    requires forall i :: 0 <= i < |s| ==> '0' <= s[i] <= '9'
  {
    if s == [] then 0 else 10 * DecimalValue(s[..|s| - 1]) + (s[|s| - 1] as int - '0' as int)
  }

  /** Python's `a < b` on `str`: lexicographic by code point, a proper prefix first. */
  predicate StrLess(a: string, b: string)
  {
    if a == [] then b != []
    else if b == [] then false
    else if a[0] != b[0] then a[0] < b[0]
    else StrLess(a[1..], b[1..])
  }

  lemma {:induction false} StrLessIrreflexive(a: string)
    ensures !StrLess(a, a)
  {
    if a != [] {
      StrLessIrreflexive(a[1..]);
    }
  }

  lemma {:induction false} StrLessAsymmetric(a: string, b: string)
    requires StrLess(a, b)
    ensures !StrLess(b, a)
  {
    if a != [] && b != [] && a[0] == b[0] {
      StrLessAsymmetric(a[1..], b[1..]);
    }
  }

  lemma {:induction false} StrLessTotal(a: string, b: string)
    ensures a == b || StrLess(a, b) || StrLess(b, a)
  {
    if a != [] && b != [] && a[0] == b[0] {
      StrLessTotal(a[1..], b[1..]);
      if a[1..] == b[1..] {
        assert a == [a[0]] + a[1..] && b == [b[0]] + b[1..];
      }
    }
  }

  lemma {:induction false} StrLessTransitive(a: string, b: string, c: string)
    requires StrLess(a, b) && StrLess(b, c)
    ensures StrLess(a, c)
  {
    if a != [] && a[0] == b[0] && b[0] == c[0] {
      StrLessTransitive(a[1..], b[1..], c[1..]);
    }
  }

  /** `_is_newer(a, b)` on the two models' versions: positive when `a` is newer, negative when
      older, zero when neither. An unversioned `a` is always newer; an unversioned `b` (with a
      versioned `a`) always older; two decimal versions compare by value, anything else as strings. */
  function IsNewer(a: Option<string>, b: Option<string>): (r: int)
    ensures a.Some? && b.Some? && !(IsDecimal(a.value) && IsDecimal(b.value)) ==> -1 <= r <= 1
  {
    if a.None? then 1
    else if b.None? then -1
    else if IsDecimal(a.value) && IsDecimal(b.value) then DecimalValue(a.value) - DecimalValue(b.value)
    else if StrLess(b.value, a.value) then 1
    else if StrLess(a.value, b.value) then -1
    else 0
  }

  /** Every version is as new as itself. */
  lemma IsNewerReflexive(a: Option<string>)
    requires a.Some?
    ensures IsNewer(a, a) == 0
  {
    StrLessIrreflexive(a.value);
  }

  /** Swapping the arguments of `_is_newer` flips the sign of its answer. */
  lemma IsNewerAntisymmetric(a: Option<string>, b: Option<string>)
    requires a.Some? && b.Some?
    ensures IsNewer(a, b) > 0 <==> IsNewer(b, a) < 0
    ensures IsNewer(a, b) == 0 <==> IsNewer(b, a) == 0
  {
    if StrLess(a.value, b.value) {
      StrLessAsymmetric(a.value, b.value);
    }
    if StrLess(b.value, a.value) {
      StrLessAsymmetric(b.value, a.value);
    }
  }

  /** Two versions tie exactly when they are the same string or two spellings of one number
      (`"1"` and `"01"`). */
  lemma IsNewerTies(a: Option<string>, b: Option<string>)
    requires a.Some? && b.Some?
    ensures IsNewer(a, b) == 0 <==>
      (a == b || (IsDecimal(a.value) && IsDecimal(b.value) && DecimalValue(a.value) == DecimalValue(b.value)))
  {
    StrLessTotal(a.value, b.value);
    StrLessIrreflexive(a.value);
  }

  /** Both versions present, and either both decimal or both not: within such a set
      `_is_newer` is a total preorder. */
  predicate SameScheme(a: Option<string>, b: Option<string>)
  {
    a.Some? && b.Some? && (IsDecimal(a.value) <==> IsDecimal(b.value))
  }

  lemma IsNewerTransitive(a: Option<string>, b: Option<string>, c: Option<string>)
    requires SameScheme(a, b) && SameScheme(b, c)
    requires IsNewer(a, b) >= 0 && IsNewer(b, c) >= 0
    ensures IsNewer(a, c) >= 0
    ensures IsNewer(a, b) > 0 || IsNewer(b, c) > 0 ==> IsNewer(a, c) > 0
  {
    if !IsDecimal(a.value) {
      StrLessTotal(a.value, b.value);
      StrLessTotal(b.value, c.value);
      StrLessTotal(a.value, c.value);
      StrLessIrreflexive(a.value);
      StrLessIrreflexive(b.value);
      if StrLess(b.value, a.value) && StrLess(c.value, b.value) {
        StrLessTransitive(c.value, b.value, a.value);
      }
      if StrLess(a.value, c.value) && a != c {
        if StrLess(b.value, a.value) {
          StrLessTransitive(b.value, a.value, c.value);
          StrLessAsymmetric(b.value, c.value);
        } else if StrLess(c.value, b.value) {
          StrLessTransitive(a.value, c.value, b.value);
          StrLessAsymmetric(a.value, b.value);
        }
      }
    }
  }

  /** Across the two schemes the ordering is not transitive: "2" is older than "10" (by value),
      "10" is older than "1a" and "1a" is older than "2" (as strings), so no version is newest. */
  lemma MixedSchemesCycle()
    ensures IsNewer(Some("2"), Some("10")) < 0
    ensures IsNewer(Some("10"), Some("1a")) < 0
    ensures IsNewer(Some("1a"), Some("2")) < 0
  {
    assert !IsDecimal("1a") by { assert !('0' <= "1a"[1] <= '9'); }
    assert DecimalValue("10") == 10 by { assert "10"[..1] == "1"; }
    assert DecimalValue("2") == 2;
    assert StrLess("10", "1a") by { assert "10"[1..] == "0" && "1a"[1..] == "a"; }
    assert StrLess("1a", "2");
    StrLessAsymmetric("10", "1a");
    StrLessAsymmetric("1a", "2");
  }

  /** All versions present and all in one scheme. */
  ghost predicate Uniform(vs: seq<Option<string>>)
  {
    (forall i :: 0 <= i < |vs| ==> vs[i].Some?) &&
    ((forall i :: 0 <= i < |vs| ==> vs[i].Some? && IsDecimal(vs[i].value)) ||
     (forall i :: 0 <= i < |vs| ==> vs[i].Some? && !IsDecimal(vs[i].value)))
  }

  /** The position Python's `max(..., key=cmp_to_key(_is_newer))` picks: it walks left to right
      and moves to an element only when that element is strictly newer than the best so far. */
  function LatestIndex(vs: seq<Option<string>>): (i: nat)
    requires |vs| > 0
    ensures i < |vs|
  {
    if |vs| == 1 then 0
    else
      var j := LatestIndex(vs[..|vs| - 1]);
      if IsNewer(vs[|vs| - 1], vs[j]) > 0 then |vs| - 1 else j
  }

  /** Within one scheme the pick is a newest version, and the first of the newest ones. */
  lemma {:induction false} LatestIsNewest(vs: seq<Option<string>>)
    requires |vs| > 0 && Uniform(vs)
    ensures forall k :: 0 <= k < |vs| ==> IsNewer(vs[k], vs[LatestIndex(vs)]) <= 0
    ensures forall k :: 0 <= k < LatestIndex(vs) ==> IsNewer(vs[k], vs[LatestIndex(vs)]) < 0
  {
    var n := |vs|;
    var i := LatestIndex(vs);
    if n == 1 {
      IsNewerReflexive(vs[0]);
    } else {
      var init := vs[..n - 1];
      assert Uniform(init);
      LatestIsNewest(init);
      var j := LatestIndex(init);
      assert init[j] == vs[j];
      var last := vs[n - 1];
      IsNewerAntisymmetric(last, vs[j]);
      if i == n - 1 {
        IsNewerReflexive(last);
        forall k | 0 <= k < n - 1 ensures IsNewer(vs[k], last) < 0 {
          assert init[k] == vs[k];
          IsNewerAntisymmetric(vs[k], vs[j]);
          IsNewerAntisymmetric(last, vs[k]);
          IsNewerTransitive(last, vs[j], vs[k]);
        }
      } else {
        forall k | 0 <= k < n ensures IsNewer(vs[k], vs[j]) <= 0 {
          if k < n - 1 {
            assert init[k] == vs[k];
          } else {
            IsNewerAntisymmetric(vs[j], last);
          }
        }
        forall k | 0 <= k < j ensures IsNewer(vs[k], vs[j]) < 0 {
          assert init[k] == vs[k];
        }
      }
    }
  }

  /** The decision inside `_refresh_default` once both a default and a new model exist:
      the new model takes the default slot when it is unversioned, never against an
      unversioned default, and otherwise when it is at least as new. */
  predicate Supersedes(candidate: Option<string>, current: Option<string>)
  {
    candidate.None? || (current.Some? && IsNewer(candidate, current) >= 0)
  }

  /** Incremental maintenance agrees with a full scan: if `current` is a newest among `vs`,
      whichever of `current` and `candidate` the refresh keeps is a newest among `vs + [candidate]`. */
  lemma SupersedesKeepsNewest(vs: seq<Option<string>>, current: Option<string>, candidate: Option<string>)
    requires Uniform(vs + [current, candidate])
    requires forall k :: 0 <= k < |vs| ==> IsNewer(vs[k], current) <= 0
    ensures var kept := if Supersedes(candidate, current) then candidate else current;
      forall k :: 0 <= k < |vs + [candidate]| ==> IsNewer((vs + [candidate])[k], kept) <= 0
  {
    var all := vs + [current, candidate];
    assert current == all[|vs|] && candidate == all[|vs| + 1];
    assert SameScheme(current, candidate);
    var ws := vs + [candidate];
    if Supersedes(candidate, current) {
      forall k | 0 <= k < |ws| ensures IsNewer(ws[k], candidate) <= 0 {
        if k == |vs| {
          IsNewerReflexive(candidate);
        } else {
          assert ws[k] == vs[k] == all[k];
          assert SameScheme(vs[k], current);
          IsNewerAntisymmetric(vs[k], current);
          IsNewerAntisymmetric(candidate, vs[k]);
          IsNewerTransitive(candidate, current, vs[k]);
        }
      }
    } else {
      forall k | 0 <= k < |ws| ensures IsNewer(ws[k], current) <= 0 {
        if k == |vs| {
          IsNewerAntisymmetric(candidate, current);
        } else {
          assert ws[k] == vs[k];
        }
      }
    }
  }
}
