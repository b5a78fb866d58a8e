// Searching a string the way Foundation's `range(of:)` and `contains` do: the
// first occurrence at or after a starting index. (`Data.range(of:)` on the
// two-byte JPEG markers is `Mjpeg.FindMarker`.)

module Search {
  import opened Wrappers

  /** `lit` occurs in `s` starting at index `k`. */
  predicate HasAt<T(==)>(s: seq<T>, k: nat, lit: seq<T>)
  {
    k + |lit| <= |s| && s[k..k + |lit|] == lit
  }

  /** The first index at or after `from` where `lit` occurs in `s`. */
  function Find<T(==)>(s: seq<T>, lit: seq<T>, from: nat): (r: Option<nat>)
    requires |lit| > 0
    decreases |s| - from
    ensures r.Some? ==> from <= r.value && HasAt(s, r.value, lit)
  {
    if from + |lit| > |s| then None
    else if HasAt(s, from, lit) then Some(from)
    else Find(s, lit, from + 1)
  }

  /** `Find` returns the first occurrence, and fails only when there is none. */
  lemma {:induction false} FindFirst<T>(s: seq<T>, lit: seq<T>, from: nat)
    requires |lit| > 0
    decreases |s| - from
    ensures Find(s, lit, from).Some? ==>
      forall k :: from <= k < Find(s, lit, from).value ==> !HasAt(s, k, lit)
    ensures Find(s, lit, from).None? ==> forall k :: from <= k ==> !HasAt(s, k, lit)
  {
    if from + |lit| <= |s| && !HasAt(s, from, lit) {
      FindFirst(s, lit, from + 1);
    }
  }

  /** `lit` occurs somewhere in `s` (Swift's `contains` on strings). */
  predicate Contains<T(==)>(s: seq<T>, lit: seq<T>)
    requires |lit| > 0
  {
    Find(s, lit, 0).Some?
  }

  /** `Contains` holds exactly when `lit` occurs at some index. */
  lemma ContainsIff<T>(s: seq<T>, lit: seq<T>)
    requires |lit| > 0
    ensures Contains(s, lit) <==> exists k :: HasAt(s, k, lit)
  {
    FindFirst(s, lit, 0);
  }

  /** The first index at or after `from` holding the element `c`. */
  function IndexOf<T(==)>(s: seq<T>, c: T, from: nat): (r: Option<nat>)
    decreases |s| - from
    ensures r.Some? ==> from <= r.value < |s| && s[r.value] == c
  {
    if from >= |s| then None
    else if s[from] == c then Some(from)
    else IndexOf(s, c, from + 1)
  }

  /** `IndexOf` returns the first index holding `c`, and fails only when there is none. */
  lemma {:induction false} IndexOfFirst<T>(s: seq<T>, c: T, from: nat)
    decreases |s| - from
    ensures IndexOf(s, c, from).Some? ==>
      forall k :: from <= k < IndexOf(s, c, from).value ==> s[k] != c
    ensures IndexOf(s, c, from).None? ==> forall k :: from <= k < |s| ==> s[k] != c
  {
    if from < |s| && s[from] != c {
      IndexOfFirst(s, c, from + 1);
    }
  }

  /** An index holding `c` with no `c` between `from` and it is what `IndexOf` returns. */
  lemma IndexOfIs<T>(s: seq<T>, c: T, from: nat, i: nat)
    requires from <= i < |s| && s[i] == c
    requires forall k :: from <= k < i ==> s[k] != c
    ensures IndexOf(s, c, from) == Some(i)
  {
    IndexOfFirst(s, c, from);
  }

  /** With no `c` at or after `from`, `IndexOf` fails. */
  lemma IndexOfNone<T>(s: seq<T>, c: T, from: nat)
    requires forall k :: from <= k < |s| ==> s[k] != c
    ensures IndexOf(s, c, from) == None
  {
    IndexOfFirst(s, c, from);
  }

  /** The first index in [from, n) where `p` holds: a leftmost-match scan. */
  function FirstWhere(p: nat -> bool, from: nat, n: nat): (r: Option<nat>)
    decreases n - from
    ensures r.Some? ==> from <= r.value < n && p(r.value)
  {
    if from >= n then None
    else if p(from) then Some(from)
    else FirstWhere(p, from + 1, n)
  }

  /** `FirstWhere` returns the first index where `p` holds, and fails only when there is none. */
  lemma {:induction false} FirstWhereFirst(p: nat -> bool, from: nat, n: nat)
    decreases n - from
    ensures FirstWhere(p, from, n).Some? ==>
      forall k :: from <= k < FirstWhere(p, from, n).value ==> !p(k)
    ensures FirstWhere(p, from, n).None? ==> forall k :: from <= k < n ==> !p(k)
  {
    if from < n && !p(from) {
      FirstWhereFirst(p, from + 1, n);
    }
  }

  /** No index between `from` and what `FirstWhere` returns satisfies `p`. */
  lemma FirstWhereBefore(p: nat -> bool, from: nat, n: nat, k: nat)
    requires FirstWhere(p, from, n).Some? && from <= k < FirstWhere(p, from, n).value
    ensures !p(k)
  {
    FirstWhereFirst(p, from, n);
  }

  /** When no index in [from, n) satisfies `p`, `FirstWhere` fails. */
  lemma FirstWhereNone(p: nat -> bool, from: nat, n: nat)
    requires forall k: nat :: from <= k < n ==> !p(k)
    ensures FirstWhere(p, from, n).None?
  {
    FirstWhereFirst(p, from, n);
  }

  /** A slice of a slice is a slice of the whole. */
  lemma SliceOfSlice<T>(s: seq<T>, lo: nat, hi: nat, i: nat, j: nat)
    requires lo <= hi <= |s| && i <= j <= hi - lo
    ensures s[lo..hi][i..j] == s[lo + i..lo + j]
  {
    forall k | 0 <= k < j - i ensures s[lo..hi][i..j][k] == s[lo + i..lo + j][k] {
      assert s[lo..hi][i..j][k] == s[lo + i + k];
    }
  }

  /** `s` ends with `suffix`. */
  predicate EndsWith<T(==)>(s: seq<T>, suffix: seq<T>)
  {
    |suffix| <= |s| && s[|s| - |suffix|..] == suffix
  }

  /**
   * `replacingOccurrences(of: pat, with: "")`: a left-to-right scan that drops
   * each occurrence of `pat` and resumes after it, without rescanning.
   */
  function RemoveAll<T(==)>(s: seq<T>, pat: seq<T>): (r: seq<T>)
    requires |pat| > 0
    decreases |s|
    ensures |r| <= |s|
  {
    if s == [] then []
    else if HasAt(s, 0, pat) then RemoveAll(s[|pat|..], pat)
    else [s[0]] + RemoveAll(s[1..], pat)
  }

  /** Removing an element that does not occur changes nothing. */
  lemma {:induction false} RemoveAbsent<T>(s: seq<T>, c: T)
    requires c !in s
    ensures RemoveAll(s, [c]) == s
  {
    if s != [] {
      assert !HasAt(s, 0, [c]) by { assert s[0..1][0] == s[0]; }
      RemoveAbsent(s[1..], c);
    }
  }

  /** Removing `c` from a `c`-free sequence followed by `c` drops just that last element. */
  lemma {:induction false} RemoveTrailing<T>(s: seq<T>, c: T)
    requires c !in s
    ensures RemoveAll(s + [c], [c]) == s
  {
    if s == [] {
      assert HasAt([c], 0, [c]);
    } else {
      assert !HasAt(s + [c], 0, [c]) by { assert (s + [c])[0..1][0] == s[0]; }
      assert (s + [c])[1..] == s[1..] + [c];
      RemoveTrailing(s[1..], c);
    }
  }

  /** The prefix that is left when a trailing `suffix` is cut off, or `s` itself. */
  function DropSuffix<T(==)>(s: seq<T>, suffix: seq<T>): (r: seq<T>)
    ensures EndsWith(s, suffix) ==> r + suffix == s
    ensures !EndsWith(s, suffix) ==> r == s
  {
    if EndsWith(s, suffix) then s[..|s| - |suffix|] else s
  }

  /**
   * Cutting a suffix keeps a prefix: every element left was in `s`, and
   * nothing is left exactly when `s` was empty or was the suffix itself.
   */
  lemma DropSuffixPrefix<T>(s: seq<T>, suffix: seq<T>)
    ensures forall x :: x in DropSuffix(s, suffix) ==> x in s
    ensures DropSuffix(s, suffix) == [] <==> s == [] || s == suffix
  {
    var r := DropSuffix(s, suffix);
    if EndsWith(s, suffix) {
      assert r == s[..|s| - |suffix|];
      forall x | x in r ensures x in s {
        var k :| 0 <= k < |r| && r[k] == x;
        assert s[k] == x;
      }
      if |r| == 0 {
        assert s == s[|s| - |suffix|..];
      }
    }
  }

  /** Past its first element, `u` ends with `suffix` as before, unless `u` is `suffix` itself. */
  lemma EndsWithTail<T>(u: seq<T>, suffix: seq<T>)
    requires |u| > 0 && u != suffix
    ensures EndsWith(u, suffix) <==> EndsWith(u[1..], suffix)
    ensures EndsWith(u, suffix) ==> [u[0]] + DropSuffix(u[1..], suffix) == DropSuffix(u, suffix)
  {
    if |suffix| < |u| {
      assert u[|u| - |suffix|..] == u[1..][|u[1..]| - |suffix|..];
      assert [u[0]] + u[1..][..|u| - 1 - |suffix|] == u[..|u| - |suffix|];
    } else if |suffix| == |u| {
      assert u[|u| - |suffix|..] == u;
    }
  }

  /** `body + [q]` matches at the front of a `q`-free `u` followed by `q` only when `u` is `body`. */
  lemma ClosingAtFront<T>(u: seq<T>, body: seq<T>, q: T)
    requires q !in u
    ensures HasAt(u + [q], 0, body + [q]) <==> u == body
  {
    var s := u + [q];
    var pat := body + [q];
    if HasAt(s, 0, pat) {
      var k := |pat| - 1;
      assert s[k] == q by { assert s[0..|pat|][k] == pat[k]; }
      assert s == pat by { assert s[0..|pat|] == s; }
      assert u == s[..|u|] && body == pat[..|body|];
    }
    if u == body {
      assert s[0..|pat|] == s;
    }
  }

  /**
   * Removing `body + [q]` from a `q`-free `u` followed by `q`: the only place the
   * pattern can occur is at the very end, where it takes a trailing `body` of `u` with it.
   */
  lemma {:induction false} RemoveClosing<T>(u: seq<T>, body: seq<T>, q: T)
    requires q !in u && |body| > 0
    decreases |u|
    ensures RemoveAll(u + [q], body + [q]) == DropSuffix(u, body) + (if EndsWith(u, body) then [] else [q])
  {
    var s := u + [q];
    ClosingAtFront(u, body, q);
    if u == body {
      assert u[|u| - |body|..] == u;
      assert s[|body + [q]|..] == [];
    } else if u == [] {
      assert s[1..] == [];
    } else {
      assert s[1..] == u[1..] + [q];
      RemoveClosing(u[1..], body, q);
      EndsWithTail(u, body);
      assert [u[0]] + (u[1..] + [q]) == s;
    }
  }
}
