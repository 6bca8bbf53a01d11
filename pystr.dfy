/** Python `str` operations used by the loader, with Python's semantics:
    clamped slices, `str.strip()` over `str.isspace()` characters, and
    `str.split(sep)` / `sep.join(parts)` for a one-character separator. */
module PyStr {

  /** The characters for which Python 3's `str.isspace()` holds: those of
      bidirectional class WS, B or S, or of category Zs. */
  const SpaceChars: set<char> :=
    {'\t', '\n', '\U{B}', '\U{C}', '\r', '\U{1C}', '\U{1D}', '\U{1E}', '\U{1F}', ' ', '\U{85}', '\U{A0}',
     '\U{1680}', '\U{2000}', '\U{2001}', '\U{2002}', '\U{2003}', '\U{2004}', '\U{2005}', '\U{2006}',
     '\U{2007}', '\U{2008}', '\U{2009}', '\U{200A}', '\U{2028}', '\U{2029}', '\U{202F}', '\U{205F}',
     '\U{3000}'}

  predicate IsSpace(c: char) {
    c in SpaceChars
  }

  predicate AllSpace(s: string) {
    forall k :: 0 <= k < |s| ==> IsSpace(s[k])
  }

  /** A string with no whitespace at either end. */
  predicate Stripped(s: string) {
    s == [] || (!IsSpace(s[0]) && !IsSpace(s[|s| - 1]))
  }

  /** Lower-case ASCII letters are not whitespace. */
  lemma LetterNotSpace(c: char)
    requires 'a' <= c <= 'z'
    ensures !IsSpace(c)
  {
  }

  /** A word that begins and ends with a lower-case letter is stripped. */
  lemma WordStripped(w: string)
    requires w != [] && 'a' <= w[0] <= 'z' && 'a' <= w[|w| - 1] <= 'z'
    ensures Stripped(w)
  {
    LetterNotSpace(w[0]);
    LetterNotSpace(w[|w| - 1]);
  }

  function Min(a: nat, b: nat): nat { if a <= b then a else b }

  function Max(a: nat, b: nat): nat { if a <= b then b else a }

  /** `s[i:j]` for non-negative bounds: both ends are clamped to `len(s)`,
      and the slice is empty when `j <= i`. */
  function Slice(s: string, i: nat, j: nat): (r: string)
    ensures |r| <= |s|
    ensures i <= j ==> |r| == Min(j, |s|) - Min(i, |s|)
    ensures i <= j <= |s| ==> r == s[i..j]
    ensures i <= |s| <= j ==> r == s[i..]
    ensures j <= i || |s| <= i ==> r == []
  {
    s[Min(i, |s|)..Min(Max(i, j), |s|)]
  }

  /** Adjacent slices concatenate to the slice that spans them. */
  lemma SliceConcat(s: string, i: nat, j: nat, k: nat)
    requires i <= j <= k
    ensures Slice(s, i, j) + Slice(s, j, k) == Slice(s, i, k)
  {
    assert s[Min(i, |s|)..Min(j, |s|)] + s[Min(j, |s|)..Min(k, |s|)] == s[Min(i, |s|)..Min(k, |s|)];
  }

  /** `s[i:]` for a non-negative start. */
  function SliceFrom(s: string, i: nat): (r: string)
    ensures i <= |s| ==> r == s[i..]
    ensures |s| <= i ==> r == []
  {
    Slice(s, i, |s|)
  }

  /** `s.lstrip()`: what follows the whitespace at the start of `s`. */
  function TrimStart(s: string): (r: string)
    ensures |r| <= |s|
    ensures r == [] || !IsSpace(r[0])
    decreases |s|
  {
    if |s| > 0 && IsSpace(s[0]) then TrimStart(s[1..]) else s
  }

  /** `lstrip` keeps a suffix of the string and removes only whitespace. */
  lemma {:induction false} TrimStartDropsSpace(s: string)
    ensures s[|s| - |TrimStart(s)|..] == TrimStart(s)
    ensures AllSpace(s[..|s| - |TrimStart(s)|])
    decreases |s|
  {
    if |s| > 0 && IsSpace(s[0]) {
      TrimStartDropsSpace(s[1..]);
      assert s[|s| - |TrimStart(s)|..] == s[1..][|s[1..]| - |TrimStart(s)|..];
      var n := |s| - |TrimStart(s)|;
      forall k | 0 <= k < n ensures IsSpace(s[..n][k]) {
        if k > 0 { assert s[..n][k] == s[1..][..n - 1][k - 1]; }
      }
    }
  }

  /** `s.rstrip()`: what precedes the whitespace at the end of `s`. */
  function TrimEnd(s: string): (r: string)
    ensures |r| <= |s|
    ensures r == [] || !IsSpace(r[|r| - 1])
    ensures s[..|r|] == r
    decreases |s|
  {
    if |s| > 0 && IsSpace(s[|s| - 1]) then TrimEnd(s[..|s| - 1]) else s
  }

  /** What `rstrip` removes is whitespace; what it keeps is a prefix, as
      its contract says. */
  lemma {:induction false} TrimEndDropsSpace(s: string)
    ensures AllSpace(s[|TrimEnd(s)|..])
    decreases |s|
  {
    if |s| > 0 && IsSpace(s[|s| - 1]) {
      var init := s[..|s| - 1];
      TrimEndDropsSpace(init);
      var n := |TrimEnd(s)|;
      forall k | 0 <= k < |s| - n ensures IsSpace(s[n..][k]) {
        if n + k < |s| - 1 { assert s[n..][k] == init[n..][k]; }
      }
    }
  }

  /** `s.strip()`: `s` without the whitespace at either end. */
  function Strip(s: string): (r: string)
    ensures Stripped(r)
    ensures |r| <= |s|
  {
    var t := TrimStart(s);
    assert TrimEnd(t) != [] ==> TrimEnd(t)[0] == t[0];
    TrimEnd(t)
  }

  lemma {:induction false} TrimStartAllSpace(s: string)
    ensures TrimStart(s) == [] <==> AllSpace(s)
    decreases |s|
  {
    if |s| > 0 {
      TrimStartAllSpace(s[1..]);
      if IsSpace(s[0]) {
        assert AllSpace(s) <==> AllSpace(s[1..]) by {
          if AllSpace(s[1..]) {
            forall k | 0 <= k < |s| ensures IsSpace(s[k]) {
              if k > 0 { assert s[k] == s[1..][k - 1]; }
            }
          }
        }
      }
    }
  }

  lemma {:induction false} TrimEndAllSpace(s: string)
    ensures TrimEnd(s) == [] <==> AllSpace(s)
    decreases |s|
  {
    if |s| > 0 {
      var init := s[..|s| - 1];
      TrimEndAllSpace(init);
      if IsSpace(s[|s| - 1]) {
        assert AllSpace(s) <==> AllSpace(init) by {
          if AllSpace(init) {
            forall k | 0 <= k < |s| ensures IsSpace(s[k]) {
              if k < |s| - 1 { assert s[k] == init[k]; }
            }
          }
        }
      }
    }
  }

  /** Only an all-whitespace string strips to the empty string. */
  lemma StripEmpty(s: string)
    ensures Strip(s) == [] <==> AllSpace(s)
  {
    TrimStartAllSpace(s);
    var t := TrimStart(s);
    if t != [] {
      TrimEndAllSpace(t);
      assert !IsSpace(t[0]);
    }
  }

  lemma {:induction false} TrimStartSkipsSpace(a: string, t: string)
    requires AllSpace(a)
    ensures TrimStart(a + t) == TrimStart(t)
    decreases |a|
  {
    if a != [] {
      assert (a + t)[0] == a[0] && IsSpace(a[0]);
      assert (a + t)[1..] == a[1..] + t;
      TrimStartSkipsSpace(a[1..], t);
    } else {
      assert a + t == t;
    }
  }

  lemma {:induction false} TrimEndSkipsSpace(t: string, b: string)
    requires AllSpace(b)
    ensures TrimEnd(t + b) == TrimEnd(t)
    decreases |b|
  {
    if b != [] {
      assert (t + b)[..|t + b| - 1] == t + b[..|b| - 1];
      TrimEndSkipsSpace(t, b[..|b| - 1]);
    } else {
      assert t + b == t;
    }
  }

  /** `strip` is characterised by its result: whenever `s` is whitespace,
      then `r` with no whitespace at its ends, then whitespace, `s.strip()`
      is `r`. */
  lemma StripUnique(a: string, r: string, b: string)
    requires AllSpace(a) && AllSpace(b) && Stripped(r)
    ensures Strip(a + r + b) == r
  {
    assert a + r + b == a + (r + b);
    TrimStartSkipsSpace(a, r + b);
    if r == [] {
      assert r + b == b;
      StripOfSpace(b);
    } else {
      StripOfTrimmed(r, b);
    }
  }

  lemma StripOfSpace(b: string)
    requires AllSpace(b)
    ensures TrimEnd(TrimStart(b)) == []
  {
    TrimStartSkipsSpace(b, []);
    assert b + [] == b;
  }

  lemma StripOfTrimmed(r: string, b: string)
    requires r != [] && AllSpace(b) && Stripped(r)
    ensures TrimEnd(TrimStart(r + b)) == r
  {
    assert (r + b)[0] == r[0];
    assert TrimStart(r + b) == r + b;
    TrimEndSkipsSpace(r, b);
  }

  /** Stripping twice is stripping once. */
  lemma StripIdempotent(s: string)
    ensures Strip(Strip(s)) == Strip(s)
  {
    StripUnique([], Strip(s), []);
    assert [] + Strip(s) + [] == Strip(s);
  }

  /** `s.split(c)`: the pieces between occurrences of `c`; never empty. */
  function Split(s: string, c: char): (r: seq<string>)
    ensures |r| >= 1
    ensures forall k :: 0 <= k < |r| ==> c !in r[k]
    decreases |s|
  {
    if |s| == 0 then [[]]
    else
      var rest := Split(s[1..], c);
      if s[0] == c then [[]] + rest
      else [[s[0]] + rest[0]] + rest[1..]
  }

  /** `c.join(parts)` */
  function Join(parts: seq<string>, c: char): (r: string)
    ensures |parts| >= 1 ==> parts[0] <= r
    ensures |parts| >= 2 ==> |parts[0]| < |r| && r[|parts[0]|] == c
    decreases |parts|
  {
    if |parts| == 0 then []
    else if |parts| == 1 then parts[0]
    else parts[0] + [c] + Join(parts[1..], c)
  }

  /** Joining the pieces of a split with the same separator gives back the string. */
  lemma {:induction false} JoinSplit(s: string, c: char)
    ensures Join(Split(s, c), c) == s
    decreases |s|
  {
    if |s| > 0 {
      var rest := Split(s[1..], c);
      JoinSplit(s[1..], c);
      if s[0] == c {
        assert ([[]] + rest)[1..] == rest;
      } else if |rest| == 1 {
        assert Join(rest, c) == rest[0];
      } else {
        var r := [[s[0]] + rest[0]] + rest[1..];
        assert r[1..] == rest[1..];
        assert Join(rest, c) == rest[0] + [c] + Join(rest[1..], c);
      }
    }
  }

  lemma {:induction false} SplitWithout(w: string, c: char)
    requires c !in w
    ensures Split(w, c) == [w]
    decreases |w|
  {
    if |w| > 0 {
      SplitWithout(w[1..], c);
      assert [w[0]] + w[1..] == w;
    }
  }

  lemma {:induction false} SplitAfterWord(w: string, c: char, t: string)
    requires c !in w
    ensures Split(w + [c] + t, c) == [w] + Split(t, c)
    decreases |w|
  {
    var s := w + [c] + t;
    if |w| == 0 {
      assert s[1..] == t;
    } else {
      assert s[1..] == w[1..] + [c] + t;
      SplitAfterWord(w[1..], c, t);
      assert [w[0]] + w[1..] == w;
    }
  }

  /** Every character of a piece of a split comes from the string split. */
  lemma {:induction false} SplitPiecesFrom(s: string, c: char)
    ensures forall k, ch :: 0 <= k < |Split(s, c)| && ch in Split(s, c)[k] ==> ch in s
    decreases |s|
  {
    if |s| > 0 {
      SplitPiecesFrom(s[1..], c);
      var rest := Split(s[1..], c);
      forall k, ch | 0 <= k < |Split(s, c)| && ch in Split(s, c)[k] ensures ch in s {
        if s[0] == c {
          assert Split(s, c)[k] == if k == 0 then [] else rest[k - 1];
          assert ch in s[1..];
        } else if k == 0 {
          assert Split(s, c)[0] == [s[0]] + rest[0];
          assert ch == s[0] || ch in s[1..];
        } else {
          assert Split(s, c)[k] == rest[k];
          assert ch in s[1..];
        }
        if ch != s[0] {
          var i :| 0 <= i < |s[1..]| && s[1..][i] == ch;
          assert s[i + 1] == ch;
        }
      }
    }
  }

  /** Splitting a join of separator-free pieces gives back the pieces. */
  lemma {:induction false} SplitJoin(parts: seq<string>, c: char)
    requires |parts| >= 1
    requires forall k :: 0 <= k < |parts| ==> c !in parts[k]
    ensures Split(Join(parts, c), c) == parts
    decreases |parts|
  {
    if |parts| == 1 {
      SplitWithout(parts[0], c);
    } else {
      SplitJoin(parts[1..], c);
      SplitAfterWord(parts[0], c, Join(parts[1..], c));
      assert [parts[0]] + parts[1..] == parts;
    }
  }
}
