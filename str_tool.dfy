/** The string helpers of `StrTool`: find-and-replace, character removal and
    the element-wise conversions between narrow and wide strings.

    `ReplaceCharacter` exists in the source for `string` and for `wstring`
    with identical bodies; both are modelled by one generic method. */
module StrTool {
  import opened Wrappers

  /** `pat` occurs in `s` starting at index `k`. */
  predicate MatchAt<T(==)>(s: seq<T>, pat: seq<T>, k: nat)
  {
    k + |pat| <= |s| && s[k..k + |pat|] == pat
  }

  /** `basic_string::find(pat, pos)`: the first index at or after `pos` where
      `pat` occurs, or `None` for `npos` (also when `pos` is past the end). */
  function Find<T(==)>(s: seq<T>, pat: seq<T>, pos: nat): (r: Option<nat>)
    ensures r.Some? ==> pos <= r.value && MatchAt(s, pat, r.value)
    ensures r.Some? ==> forall j :: pos <= j < r.value ==> !MatchAt(s, pat, j)
    ensures r.None? ==> forall j :: pos <= j ==> !MatchAt(s, pat, j)
    decreases |s| - pos
  {
    if pos + |pat| > |s| then None
    else if s[pos..pos + |pat|] == pat then Some(pos)
    else Find(s, pat, pos + 1)
  }

  /** Reference definition of replacing every occurrence of `from` by `to`,
      scanning left to right; the inserted `to` is emitted as it is and never
      looked at again, so occurrences do not overlap. */
  function ReplaceAll<T(==)>(s: seq<T>, from: seq<T>, to: seq<T>): seq<T>
    requires |from| > 0
    decreases |s|
  {
    if |s| < |from| then s
    else if s[..|from|] == from then to + ReplaceAll(s[|from|..], from, to)
    else [s[0]] + ReplaceAll(s[1..], from, to)
  }

  /** The number of replacements `ReplaceAll` performs. */
  function ReplacementCount<T(==)>(s: seq<T>, from: seq<T>): nat
    requires |from| > 0
    decreases |s|
  {
    if |s| < |from| then 0
    else if s[..|from|] == from then 1 + ReplacementCount(s[|from|..], from)
    else ReplacementCount(s[1..], from)
  }

  /** `s` with every element equal to `c` dropped, order preserved. */
  function Without<T(==)>(s: seq<T>, c: T): seq<T>
  {
    if s == [] then [] else (if s[0] == c then [] else [s[0]]) + Without(s[1..], c)
  }

  /** Matching at index `k` of the suffix `s[pos..]` is matching at `pos + k`. */
  lemma MatchAtSuffix<T>(s: seq<T>, pat: seq<T>, pos: nat, k: nat)
    requires pos <= |s|
    ensures MatchAt(s[pos..], pat, k) <==> MatchAt(s, pat, pos + k)
  {
    if pos + k + |pat| <= |s| {
      assert s[pos..][k..k + |pat|] == s[pos + k..pos + k + |pat|];
    }
  }

  /** Characters before the first occurrence are copied as they are. */
  lemma {:induction false} ReplaceAllSkip<T>(t: seq<T>, from: seq<T>, to: seq<T>, j: nat)
    requires |from| > 0 && j <= |t|
    requires forall i :: 0 <= i < j ==> !MatchAt(t, from, i)
    ensures ReplaceAll(t, from, to) == t[..j] + ReplaceAll(t[j..], from, to)
  {
    if j > 0 {
      assert !MatchAt(t, from, 0);
      if |t| < |from| {
        assert ReplaceAll(t[j..], from, to) == t[j..];
        assert t == t[..j] + t[j..];
      } else {
        assert t[..|from|] != from;
        forall i | 0 <= i < j - 1 ensures !MatchAt(t[1..], from, i) {
          MatchAtSuffix(t, from, 1, i);
          assert !MatchAt(t, from, i + 1);
        }
        ReplaceAllSkip(t[1..], from, to, j - 1);
        assert t[1..][..j - 1] == t[1..j];
        assert t[1..][j - 1..] == t[j..];
        assert [t[0]] + t[1..j] == t[..j];
      }
    }
  }

  /** With no occurrence at all, nothing is replaced. */
  lemma ReplaceAllNoMatch<T>(t: seq<T>, from: seq<T>, to: seq<T>)
    requires |from| > 0
    requires forall i :: 0 <= i ==> !MatchAt(t, from, i)
    ensures ReplaceAll(t, from, to) == t
  {
    ReplaceAllSkip(t, from, to, |t|);
    assert t[..|t|] == t;
  }

  /** At the first occurrence, `to` is written and scanning resumes after the
      replaced `from`. */
  lemma ReplaceAllAtFirst<T>(t: seq<T>, from: seq<T>, to: seq<T>, j: nat)
    requires |from| > 0
    requires MatchAt(t, from, j)
    requires forall i :: 0 <= i < j ==> !MatchAt(t, from, i)
    ensures ReplaceAll(t, from, to) == t[..j] + to + ReplaceAll(t[j + |from|..], from, to)
  {
    ReplaceAllSkip(t, from, to, j);
    var u := t[j..];
    assert u[..|from|] == from by {
      assert u[..|from|] == t[j..j + |from|];
    }
    assert u[|from|..] == t[j + |from|..];
    var rest := ReplaceAll(t[j + |from|..], from, to);
    assert ReplaceAll(u, from, to) == to + rest;
    assert t[..j] + (to + rest) == t[..j] + to + rest;
  }

  /** Replacing in the suffix from a match writes `to` and resumes after it. */
  lemma ReplaceAtMatch<T>(r: seq<T>, from: seq<T>, to: seq<T>, k: nat)
    requires |from| > 0 && MatchAt(r, from, k)
    ensures ReplaceAll(r[k..], from, to) == to + ReplaceAll(r[k + |from|..], from, to)
  {
    var t := r[k..];
    assert t[..|from|] == r[k..k + |from|];
    assert t[|from|..] == r[k + |from|..];
  }

  /** Replacing in the suffix from a position with no match copies that element. */
  lemma ReplaceSkipOne<T>(r: seq<T>, from: seq<T>, to: seq<T>, pos: nat)
    requires |from| > 0 && pos + |from| <= |r| && !MatchAt(r, from, pos)
    ensures ReplaceAll(r[pos..], from, to) == [r[pos]] + ReplaceAll(r[pos + 1..], from, to)
  {
    var t := r[pos..];
    assert t[..|from|] == r[pos..pos + |from|];
    assert t[1..] == r[pos + 1..];
  }

  /** Replacing in the suffix from `pos`, whose first match is at `k`. */
  lemma {:induction false} ReplaceFromFound<T>(r: seq<T>, from: seq<T>, to: seq<T>, pos: nat, k: nat)
    requires |from| > 0 && pos <= |r|
    requires pos <= k && MatchAt(r, from, k)
    requires forall j :: pos <= j < k ==> !MatchAt(r, from, j)
    ensures ReplaceAll(r[pos..], from, to) == r[pos..k] + to + ReplaceAll(r[k + |from|..], from, to)
    decreases k - pos
  {
    if k == pos {
      ReplaceAtMatch(r, from, to, k);
      assert r[pos..k] == [];
    } else {
      ReplaceSkipOne(r, from, to, pos);
      ReplaceFromFound(r, from, to, pos + 1, k);
      assert r[pos..k] == [r[pos]] + r[pos + 1..k];
      Regroup([r[pos]], r[pos + 1..k], to, ReplaceAll(r[k + |from|..], from, to));
    }
  }

  lemma Regroup<T>(a: seq<T>, b: seq<T>, c: seq<T>, d: seq<T>)
    ensures a + (b + c + d) == (a + b) + c + d
  {
  }

  /** One turn of the `ReplaceCharacter` loop: splicing `to` in at the match
      found from `pos` keeps the part already done followed by the reference
      replacement of the rest equal to the same result. */
  lemma ReplaceStep<T>(r: seq<T>, from: seq<T>, to: seq<T>, pos: nat, k: nat)
    requires |from| > 0 && pos <= |r|
    requires pos <= k && MatchAt(r, from, k)
    requires forall j :: pos <= j < k ==> !MatchAt(r, from, j)
    ensures var r' := r[..k] + to + r[k + |from|..];
      k + |to| <= |r'| &&
      r'[..k + |to|] + ReplaceAll(r'[k + |to|..], from, to) == r[..pos] + ReplaceAll(r[pos..], from, to)
  {
    ReplaceFromFound(r, from, to, pos, k);
    var r' := r[..k] + to + r[k + |from|..];
    assert r'[..k + |to|] == r[..k] + to;
    assert r'[k + |to|..] == r[k + |from|..];
    assert r[..k] == r[..pos] + r[pos..k];
    Regroup(r[..pos], r[pos..k], to, ReplaceAll(r[k + |from|..], from, to));
  }

  /** The inserted text is never rescanned: replacing in `from + s` emits `to`
      verbatim and continues with `s`, even when `to` itself contains `from`. */
  lemma ReplacedTextNotRescanned<T>(s: seq<T>, from: seq<T>, to: seq<T>)
    requires |from| > 0
    ensures ReplaceAll(from + s, from, to) == to + ReplaceAll(s, from, to)
  {
    assert (from + s)[..|from|] == from;
    assert (from + s)[|from|..] == s;
  }

  lemma Distribute(k: int, d: int)
    ensures (1 + k) * d == k * d + d
  {
  }

  /** Length law: each replacement changes the length by `|to| - |from|`. */
  lemma {:induction false} ReplaceAllLength<T>(s: seq<T>, from: seq<T>, to: seq<T>)
    requires |from| > 0
    ensures |ReplaceAll(s, from, to)| == |s| + ReplacementCount(s, from) * (|to| - |from|)
    decreases |s|
  {
    if |s| < |from| {
    } else if s[..|from|] == from {
      ReplaceAllLength(s[|from|..], from, to);
      Distribute(ReplacementCount(s[|from|..], from), |to| - |from|);
    } else {
      ReplaceAllLength(s[1..], from, to);
    }
  }

  /** `StrTool::ReplaceCharacter`: replaces `from` by `to` in place, resuming
      each search just after the inserted `to`. An empty `from` makes the
      loop run forever (`EmptyFromNeverEnds`), hence the precondition. */
  method ReplaceCharacter<T(==)>(str: seq<T>, from: seq<T>, to: seq<T>) returns (r: seq<T>)
    requires |from| > 0
    ensures r == ReplaceAll(str, from, to)
    ensures Find(str, from, 0).None? ==> r == str
    ensures |r| == |str| + ReplacementCount(str, from) * (|to| - |from|)
  {
    r := str;
    var pos: nat := 0;
    var loc := Find(r, from, 0);
    while loc.Some?
      invariant pos <= |r|
      invariant loc == Find(r, from, pos)
      invariant r[..pos] + ReplaceAll(r[pos..], from, to) == ReplaceAll(str, from, to)
      decreases |r| - pos
    {
      var k := loc.value;
      ReplaceStep(r, from, to, pos, k);
      var r' := r[..k] + to + r[k + |from|..];
      assert (r', k + |to|) == LoopTurn(r, from, to, pos);
      r := r';
      pos := k + |to|;
      loc := Find(r, from, pos);
    }
    forall i | 0 <= i ensures !MatchAt(r[pos..], from, i) {
      MatchAtSuffix(r, from, pos, i);
    }
    ReplaceAllNoMatch(r[pos..], from, to);
    assert r[..pos] + r[pos..] == r;
    if Find(str, from, 0).None? {
      ReplaceAllNoMatch(str, from, to);
    }
    ReplaceAllLength(str, from, to);
  }

  /** One turn of the `ReplaceCharacter` loop as written, for any `from`:
      splice `to` over the match found from `pos` and resume after it. */
  function LoopTurn<T(==)>(r: seq<T>, from: seq<T>, to: seq<T>, pos: nat): (next: (seq<T>, nat))
    requires Find(r, from, pos).Some?
    ensures |next.0| == |r| + |to| - |from|
  {
    var k := Find(r, from, pos).value;
    (r[..k] + to + r[k + |from|..], k + |to|)
  }

  /** With an empty `from` the loop as written never ends: `find` matches
      at every position up to the end, so the loop condition holds again
      after every turn; each turn inserts `to` and resumes just after it,
      so the string grows by `|to|` while the distance from the search
      position to the end never shrinks. */
  lemma EmptyFromNeverEnds<T>(r: seq<T>, to: seq<T>, pos: nat)
    requires pos <= |r|
    ensures Find(r, [], pos) == Some(pos)
    ensures var next := LoopTurn(r, [], to, pos);
      && next.1 <= |next.0| && Find(next.0, [], next.1) == Some(next.1)
      && |next.0| == |r| + |to| && |next.0| - next.1 == |r| - pos
  {
  }

  /** `StrTool::RemoveCharacter`: replacement of `target` by nothing. */
  function RemoveCharacter<T(==)>(str: seq<T>, target: seq<T>): seq<T>
    requires |target| > 0
  {
    ReplaceAll(str, target, [])
  }

  lemma RemovalLength<T>(str: seq<T>, target: seq<T>)
    requires |target| > 0
    ensures |ReplaceAll(str, target, [])| == |str| - ReplacementCount(str, target) * |target|
  {
    ReplaceAllLength(str, target, []);
    Negate(ReplacementCount(str, target), |target|);
  }

  lemma Negate(k: int, d: int)
    ensures k * (0 - d) == - (k * d)
  {
  }

  /** Each removal shortens the string by `|target|`; a string without
      `target` comes back as it is; a one-element target is filtered out,
      order kept. */
  lemma RemoveCharacterLaws<T>(str: seq<T>, target: seq<T>)
    requires |target| > 0
    ensures |RemoveCharacter(str, target)| == |str| - ReplacementCount(str, target) * |target|
    ensures Find(str, target, 0).None? ==> RemoveCharacter(str, target) == str
    ensures |target| == 1 ==> RemoveCharacter(str, target) == Without(str, target[0])
  {
    RemovalLength(str, target);
    if Find(str, target, 0).None? {
      ReplaceAllNoMatch(str, target, []);
    }
    if |target| == 1 {
      assert target == [target[0]];
      RemoveOneIsFilter(str, target[0]);
    }
  }

  /** Replacing a one-element pattern by nothing is filtering that element out. */
  lemma {:induction false} RemoveOneIsFilter<T>(s: seq<T>, c: T)
    ensures ReplaceAll(s, [c], []) == Without(s, c)
    decreases |s|
  {
    if s != [] {
      RemoveOneIsFilter(s[1..], c);
      if s[0] == c {
        assert s[..1] == [c];
      } else {
        assert s[..1] != [c];
      }
    }
  }

  lemma {:induction false} WithoutRemovesAll<T>(s: seq<T>, c: T)
    ensures c !in Without(s, c)
    ensures forall x :: x != c ==> multiset(Without(s, c))[x] == multiset(s)[x]
    decreases |s|
  {
    if s != [] {
      WithoutRemovesAll(s[1..], c);
      assert s == [s[0]] + s[1..];
    }
  }

  lemma {:induction false} WithoutOfAbsent<T>(s: seq<T>, c: T)
    requires c !in s
    ensures Without(s, c) == s
    decreases |s|
  {
    if s != [] {
      WithoutOfAbsent(s[1..], c);
    }
  }

  /** Single-element removal leaves no occurrence of the target, keeps every
      other element with its multiplicity, and a second removal changes nothing. */
  lemma RemoveSingle<T>(s: seq<T>, c: T)
    ensures c !in RemoveCharacter(s, [c])
    ensures forall x :: x != c ==> multiset(RemoveCharacter(s, [c]))[x] == multiset(s)[x]
    ensures RemoveCharacter(RemoveCharacter(s, [c]), [c]) == RemoveCharacter(s, [c])
  {
    RemoveCharacterLaws(s, [c]);
    WithoutRemovesAll(s, c);
    RemoveCharacterLaws(Without(s, c), [c]);
    WithoutOfAbsent(Without(s, c), c);
  }

  /** With a longer target, removal can create a new occurrence. */
  lemma RemoveCanCreateOccurrence()
    ensures RemoveCharacter("aabb", "ab") == "ab"
    ensures MatchAt(RemoveCharacter("aabb", "ab"), "ab", 0)
  {
    var s := "aabb";
    assert s[..2][1] != "ab"[1];
    assert s[1..][..2] == "ab";
    assert s[1..][2..] == "b";
    assert ReplaceAll("b", "ab", []) == "b";
  }

  /** `char` as MSVC has it: a signed 8-bit integer. */
  newtype Char8 = x: int | -128 <= x < 128

  /** `wchar_t` as MSVC has it: an unsigned 16-bit integer. */
  newtype WChar = x: int | 0 <= x < 0x1_0000

  /** Integral conversion `char` to `wchar_t`: the value modulo 2^16. */
  function Widen(c: Char8): WChar
  {
    ((c as int) % 0x1_0000) as WChar
  }

  /** Integral conversion `wchar_t` to `char`: the value modulo 2^8, read as
      a signed byte. */
  function Narrow(w: WChar): Char8
  {
    var b := (w as int) % 0x100;
    (if b < 0x80 then b else b - 0x100) as Char8
  }

  /** `StrTool::str2wstr`: the range constructor converts element by element. */
  function Str2WStr(s: seq<Char8>): (ws: seq<WChar>)
    ensures |ws| == |s|
  {
    seq(|s|, i requires 0 <= i < |s| => Widen(s[i]))
  }

  /** `StrTool::wstr2str`: the range constructor converts element by element. */
  function WStr2Str(ws: seq<WChar>): (s: seq<Char8>)
    ensures |s| == |ws|
  {
    seq(|ws|, i requires 0 <= i < |ws| => Narrow(ws[i]))
  }

  lemma NarrowWiden(c: Char8)
    ensures Narrow(Widen(c)) == c
  {
    if c < 0 {
      assert (c as int) % 0x1_0000 == c as int + 0x1_0000;
      assert (c as int + 0x1_0000) % 0x100 == c as int + 0x100;
    }
  }

  /** Widening then narrowing gives back the narrow string. */
  lemma RoundTrip(s: seq<Char8>)
    ensures WStr2Str(Str2WStr(s)) == s
  {
    forall i | 0 <= i < |s| ensures WStr2Str(Str2WStr(s))[i] == s[i] {
      NarrowWiden(s[i]);
    }
  }

  /** The other direction loses information: a wide character above 0xFF
      does not survive narrowing. */
  lemma NarrowingIsLossy()
    ensures Str2WStr(WStr2Str([0x100 as WChar])) == [0 as WChar]
  {
    assert Narrow(0x100 as WChar) == 0;
    assert Widen(0) == 0;
  }
}
