/**
 * The pieces of the JavaScript string library the gateway leans on:
 * `trim`, `\s`, `toLowerCase`, `split`, `join` and `includes`.
 */
module Text {
  import Seqs

  /** ECMAScript WhiteSpace and LineTerminator code points: what `trim` strips and `\s` matches. */
  predicate IsJsSpace(c: char) {
    || c == '\t' || c == '\n' || c == '\U{000B}' || c == '\U{000C}' || c == '\r'
    || c == ' ' || c == '\U{00A0}' || c == '\U{1680}'
    || ('\U{2000}' <= c <= '\U{200A}')
    || c == '\U{2028}' || c == '\U{2029}' || c == '\U{202F}' || c == '\U{205F}'
    || c == '\U{3000}' || c == '\U{FEFF}'
  }

  predicate NoSpace(s: string) {
    forall i | 0 <= i < |s| :: !IsJsSpace(s[i])
  }

  /** Neither end of `s` is a whitespace character. */
  predicate Trimmed(s: string) {
    s == [] || (!IsJsSpace(s[0]) && !IsJsSpace(s[|s| - 1]))
  }

  function TrimStart(s: string): (r: string)
    ensures r == [] || !IsJsSpace(r[0])
  {
    if s != [] && IsJsSpace(s[0]) then TrimStart(s[1..]) else s
  }

  function TrimEnd(s: string): (r: string)
    ensures r == [] || !IsJsSpace(r[|r| - 1])
  {
    if s != [] && IsJsSpace(s[|s| - 1]) then TrimEnd(s[..|s| - 1]) else s
  }

  /** `TrimStart` keeps a suffix and what it drops is whitespace. */
  lemma {:induction false} TrimStartDrops(s: string)
    ensures |TrimStart(s)| <= |s| && TrimStart(s) == s[|s| - |TrimStart(s)|..]
    ensures forall i | 0 <= i < |s| - |TrimStart(s)| :: IsJsSpace(s[i])
  {
    if s != [] && IsJsSpace(s[0]) {
      TrimStartDrops(s[1..]);
      assert forall i | 1 <= i < |s| :: s[i] == s[1..][i - 1];
    }
  }

  /** `TrimEnd` keeps a prefix and what it drops is whitespace. */
  lemma {:induction false} TrimEndDrops(s: string)
    ensures |TrimEnd(s)| <= |s| && TrimEnd(s) == s[..|TrimEnd(s)|]
    ensures forall i | |TrimEnd(s)| <= i < |s| :: IsJsSpace(s[i])
  {
    if s != [] && IsJsSpace(s[|s| - 1]) {
      TrimEndDrops(s[..|s| - 1]);
    }
  }

  /** `String.prototype.trim`: `s` without its leading and trailing whitespace. */
  function Trim(s: string): (r: string)
    ensures Trimmed(r)
  {
    var t := TrimStart(s);
    TrimEndDrops(t);
    TrimEnd(t)
  }

  /** What `trim` keeps is a contiguous part of its input. */
  lemma TrimInfix(s: string)
    ensures OccursAt(s, Trim(s), |s| - |TrimStart(s)|)
  {
    var t := TrimStart(s);
    var r := TrimEnd(t);
    TrimStartDrops(s);
    TrimEndDrops(t);
    var k := |s| - |t|;
    assert r == Trim(s);
    assert s[k..k + |r|] == s[k..][..|r|];
  }

  /**
   * `trim` cuts `s` into three: leading whitespace, the result, and trailing
   * whitespace. With `Trimmed`, this fixes the result.
   */
  lemma TrimParts(s: string)
    ensures var k, r := |s| - |TrimStart(s)|, Trim(s);
      && 0 <= k && k + |r| <= |s|
      && s == s[..k] + r + s[k + |r|..]
      && (forall i | 0 <= i < k :: IsJsSpace(s[i]))
      && (forall i | k + |r| <= i < |s| :: IsJsSpace(s[i]))
  {
    var t := TrimStart(s);
    var r := TrimEnd(t);
    var k := |s| - |t|;
    TrimStartDrops(s);
    TrimEndDrops(t);
    TrimInfix(s);
    assert r == Trim(s);
    Seqs.ThreeParts(s, k, k + |r|);
    forall i | k + |r| <= i < |s| ensures IsJsSpace(s[i]) {
      assert s[i] == t[i - k];
    }
  }

  /** Trimming leaves nothing exactly when every character is whitespace. */
  lemma TrimEmpty(s: string)
    ensures Trim(s) == [] <==> forall i | 0 <= i < |s| :: IsJsSpace(s[i])
  {
    var t := TrimStart(s);
    var r := TrimEnd(t);
    TrimStartDrops(s);
    TrimEndDrops(t);
    if r == [] {
      forall i | 0 <= i < |s| ensures IsJsSpace(s[i]) {
        if i >= |s| - |t| { assert s[i] == t[i - (|s| - |t|)]; }
      }
    } else {
      assert t[0] == s[|s| - |t|];
    }
  }

  predicate IsUpper(c: char) { 'A' <= c <= 'Z' }

  /** ASCII case mapping; every other character is left as it is. */
  function LowerChar(c: char): char {
    if IsUpper(c) then (c as int + 32) as char else c
  }

  predicate IsLowercase(s: string) {
    forall i | 0 <= i < |s| :: !IsUpper(s[i])
  }

  /** `String.prototype.toLowerCase`, restricted to the ASCII letters. */
  function ToLower(s: string): (r: string)
    ensures |r| == |s|
  {
    if s == [] then [] else [LowerChar(s[0])] + ToLower(s[1..])
  }

  /** `toLowerCase` lowers each character on its own. */
  lemma {:induction false} LowerAt(s: string)
    ensures forall i | 0 <= i < |s| :: ToLower(s)[i] == LowerChar(s[i])
  {
    if s != [] {
      LowerAt(s[1..]);
      assert forall i | 1 <= i < |s| :: ToLower(s)[i] == ToLower(s[1..])[i - 1];
    }
  }

  /** What lowering does to one character. */
  lemma LowerCharFacts(c: char)
    ensures !IsUpper(LowerChar(c))
    ensures IsJsSpace(LowerChar(c)) <==> IsJsSpace(c)
    ensures LowerChar(c) == c || 'a' <= LowerChar(c) <= 'z'
    ensures !IsUpper(c) ==> LowerChar(c) == c
  {
  }

  /**
   * Lowering leaves no upper-case letter, keeps whitespace where it was,
   * changes only letters, and changes nothing already lower-case.
   */
  lemma LowerFacts(s: string)
    ensures IsLowercase(ToLower(s))
    ensures forall i | 0 <= i < |s| :: IsJsSpace(ToLower(s)[i]) <==> IsJsSpace(s[i])
    ensures forall i | 0 <= i < |s| :: ToLower(s)[i] == s[i] || ('a' <= ToLower(s)[i] <= 'z')
    ensures IsLowercase(s) ==> ToLower(s) == s
  {
    LowerAt(s);
    forall i | 0 <= i < |s|
      ensures !IsUpper(ToLower(s)[i])
      ensures IsJsSpace(ToLower(s)[i]) <==> IsJsSpace(s[i])
      ensures ToLower(s)[i] == s[i] || ('a' <= ToLower(s)[i] <= 'z')
      ensures !IsUpper(s[i]) ==> ToLower(s)[i] == s[i]
    {
      LowerCharFacts(s[i]);
    }
  }

  /** `s.split(d)` for a one-character separator: always at least one field. */
  function Split(s: string, d: char): (r: seq<string>)
    ensures |r| > 0
  {
    if s == [] then [[]]
    else
      var t := Split(s[1..], d);
      if s[0] == d then [[]] + t
      else [[s[0]] + t[0]] + t[1..]
  }

  /** No field holds the separator. */
  lemma {:induction false} SplitFields(s: string, d: char)
    ensures forall j | 0 <= j < |Split(s, d)| :: d !in Split(s, d)[j]
  {
    if s != [] {
      SplitFields(s[1..], d);
    }
  }

  /** There is one field more than there are separators. */
  lemma {:induction false} SplitCount(s: string, d: char)
    ensures |Split(s, d)| == multiset(s)[d] + 1
  {
    if s != [] {
      SplitCount(s[1..], d);
      assert s == [s[0]] + s[1..];
    }
  }

  /** `ks.join(d)`: the empty list joins to the empty string. */
  function Join(ks: seq<string>, d: char): string {
    if |ks| == 0 then []
    else if |ks| == 1 then ks[0]
    else ks[0] + [d] + Join(ks[1..], d)
  }

  lemma {:induction false} SplitJoin(ks: seq<string>, d: char)
    requires |ks| > 0
    requires forall j | 0 <= j < |ks| :: d !in ks[j]
    ensures Split(Join(ks, d), d) == ks
  {
    if |ks| == 1 {
      SplitWithout(ks[0], d);
    } else {
      SplitJoin(ks[1..], d);
      SplitAround(ks[0], Join(ks[1..], d), d);
      SplitWithout(ks[0], d);
      Seqs.Uncons(ks);
    }
  }

  lemma {:induction false} JoinSplit(s: string, d: char)
    ensures Join(Split(s, d), d) == s
  {
    if s != [] {
      JoinSplit(s[1..], d);
      var t := Split(s[1..], d);
      if s[0] == d {
        assert Split(s, d) == [[]] + t;
        assert Join(Split(s, d), d) == [] + [d] + Join(t, d);
      } else {
        assert Split(s, d) == [[s[0]] + t[0]] + t[1..];
        if |t| == 1 {
          assert Join(Split(s, d), d) == [s[0]] + t[0];
        } else {
          assert t == [t[0]] + t[1..];
          assert Join(t, d) == t[0] + [d] + Join(t[1..], d);
          assert Join(Split(s, d), d) == ([s[0]] + t[0]) + [d] + Join(t[1..], d);
        }
        assert s == [s[0]] + s[1..];
      }
    }
  }

  /** A field without the separator is split into itself. */
  lemma {:induction false} SplitWithout(s: string, d: char)
    requires d !in s
    ensures Split(s, d) == [s]
  {
    if s != [] {
      SplitWithout(s[1..], d);
      assert s == [s[0]] + s[1..];
    }
  }

  /** Splitting distributes over a separator: the fields of `a` come first, in order, then those of `b`. */
  lemma {:induction false} SplitAround(a: string, b: string, d: char)
    ensures Split(a + [d] + b, d) == Split(a, d) + Split(b, d)
  {
    if a == [] {
      assert a + [d] + b == [d] + b;
      SplitCons(d, b, d);
    } else {
      SplitAround(a[1..], b, d);
      SplitAroundStep(a[0], a[1..], a[1..] + [d] + b, Split(b, d), d);
      Seqs.Uncons(a);
      Seqs.ConsAround(a, d, b);
    }
  }

  /** One character in front of two field lists that agree extends both alike. */
  lemma SplitAroundStep(c: char, a: string, rest: string, v: seq<string>, d: char)
    requires Split(rest, d) == Split(a, d) + v
    ensures Split([c] + rest, d) == Split([c] + a, d) + v
  {
    SplitCons(c, rest, d);
    SplitCons(c, a, d);
    var u := Split(a, d);
    if c != d {
      Seqs.TailConcat(u, v);
      Seqs.Associates([[c] + u[0]], u[1..], v);
    } else {
      Seqs.Associates([[]], u, v);
    }
  }

  lemma SplitCons(c: char, rest: string, d: char)
    ensures c == d ==> Split([c] + rest, d) == [[]] + Split(rest, d)
    ensures c != d ==> Split([c] + rest, d) == [[c] + Split(rest, d)[0]] + Split(rest, d)[1..]
  {
    assert ([c] + rest)[1..] == rest;
  }

  /** `q` occurs in `k` starting at index `i`. */
  predicate OccursAt(k: string, q: string, i: int) {
    0 <= i && i + |q| <= |k| && k[i..i + |q|] == q
  }

  /** `k.includes(q)`, as a left-to-right scan of the start positions. */
  function Includes(k: string, q: string): (r: bool)
    ensures r <==> exists i :: OccursAt(k, q, i)
  {
    if |q| <= |k| && k[..|q|] == q then
      assert OccursAt(k, q, 0);
      true
    else if k == [] then
      assert forall i :: !OccursAt(k, q, i);
      false
    else
      var r := Includes(k[1..], q);
      assert forall i :: OccursAt(k[1..], q, i) <==> OccursAt(k, q, i + 1);
      assert !OccursAt(k, q, 0);
      assert (exists i :: OccursAt(k, q, i)) ==> exists i :: OccursAt(k[1..], q, i) by {
        if exists i :: OccursAt(k, q, i) {
          var i :| OccursAt(k, q, i);
          assert OccursAt(k[1..], q, i - 1);
        }
      }
      r
  }
}
