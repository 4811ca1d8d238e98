/**
 * String helpers shared by the bot's utilities: an Option type for Java's
 * nullable references, concatenation of string lists, `String.trim()` and the
 * decimal rendering that `StringBuilder.append(int)` performs.
 */
module Text {

  /** A Java reference that may be null. */
  datatype Option<+T> = None | Some(value: T)

  function Max(a: int, b: int): int { if a >= b then a else b }

  function Min(a: int, b: int): int { if a <= b then a else b }

  /** Concatenation of a list of strings, built from the end as a StringBuilder does. */
  function Join(parts: seq<string>): string
  {
    if parts == [] then "" else Join(parts[..|parts| - 1]) + parts[|parts| - 1]
  }

  lemma {:induction false} JoinAppend(a: seq<string>, b: seq<string>)
    ensures Join(a + b) == Join(a) + Join(b)
    decreases |b|
  {
    if b == [] {
      assert a + b == a;
    } else {
      var b', last := b[..|b| - 1], b[|b| - 1];
      assert (a + b)[..|a + b| - 1] == a + b';
      assert Join(a + b) == Join(a + b') + last;
      JoinAppend(a, b');
      assert Join(b) == Join(b') + last;
    }
  }

  /** A sequence is its prefix up to `n` followed by the rest. */
  lemma SplitAt<T>(s: seq<T>, n: nat)
    requires n <= |s|
    ensures s == s[..n] + s[n..]
  {
  }

  /** Dropping the last element of `a + b`, for a non-empty `b`, drops it from `b`. */
  lemma DropLast<T>(a: seq<T>, b: seq<T>)
    requires b != []
    ensures (a + b)[..|a + b| - 1] == a + b[..|b| - 1] && (a + b)[|a + b| - 1] == b[|b| - 1]
  {
  }

  /** The prefix one longer, with its last element dropped, is the shorter prefix. */
  lemma PrefixStep<T>(s: seq<T>, r: nat)
    requires r < |s|
    ensures |s[..r + 1]| == r + 1 && s[..r + 1][..r] == s[..r] && s[..r + 1][r] == s[r]
  {
  }

  lemma WholePrefix<T>(s: seq<T>)
    ensures s[..|s|] == s
  {
  }

  /** A prefix of `b` stays a prefix of `b + x + y`. */
  lemma PrefixExtend<T>(a: seq<T>, b: seq<T>, x: seq<T>, y: seq<T>, c: seq<T>)
    requires a <= b && c == b + x + y
    ensures a <= c
  {
    assert c[..|b|] == b;
    assert c[..|a|] == b[..|a|];
  }

  lemma PrefixTrans<T>(a: seq<T>, b: seq<T>, c: seq<T>)
    requires a <= b && b <= c
    ensures a <= c
  {
    assert c[..|a|] == b[..|a|];
  }

  /** If `a + x` is a prefix of `c`, so is `a`. */
  lemma PrefixShrink<T>(a: seq<T>, x: seq<T>, b: seq<T>, c: seq<T>)
    requires b == a + x && b <= c
    ensures a <= c
  {
    assert c[..|a|] == b[..|a|];
  }

  /** `h + ms` is `h` plus all of `ms` but its last element, then that element. */
  lemma Snoc<T>(h: seq<T>, ms: seq<T>)
    requires ms != []
    ensures h + ms == (h + ms[..|ms| - 1]) + [ms[|ms| - 1]]
  {
  }

  lemma Assoc<T>(x: seq<T>, y: seq<T>, z: seq<T>)
    ensures (x + y) + z == x + (y + z)
  {
  }

  /** Java's `trim()` removes every leading and trailing char whose code is at most U+0020. */
  predicate IsTrimmed(c: char) { c <= ' ' }

  function TrimStart(s: string): (r: string)
    ensures |r| <= |s| && r == s[|s| - |r|..]
    ensures forall k :: 0 <= k < |s| - |r| ==> IsTrimmed(s[k])
    ensures r != [] ==> !IsTrimmed(r[0])
  {
    if s == [] || !IsTrimmed(s[0]) then s else TrimStart(s[1..])
  }

  function TrimEnd(s: string): (r: string)
    ensures |r| <= |s| && r == s[..|r|]
    ensures forall k :: |r| <= k < |s| ==> IsTrimmed(s[k])
    ensures r != [] ==> !IsTrimmed(r[|r| - 1])
  {
    if s == [] || !IsTrimmed(s[|s| - 1]) then s else TrimEnd(s[..|s| - 1])
  }

  /** `String.trim()`. */
  function Trim(s: string): string
  {
    TrimEnd(TrimStart(s))
  }

  /** The result of `trim()` neither starts nor ends with a trimmable char, and trimming it again changes nothing. */
  lemma TrimEnds(s: string)
    ensures var r := Trim(s);
            r == [] || (!IsTrimmed(r[0]) && !IsTrimmed(r[|r| - 1]))
    ensures Trim(Trim(s)) == Trim(s)
  {
    var t := TrimStart(s);
    var r := TrimEnd(t);
    if r != [] {
      assert r[0] == t[0];
      assert TrimStart(r) == r;
      assert TrimEnd(r) == r;
    }
  }

  /** `s.trim().isEmpty()` holds exactly when every char of `s` is trimmable. */
  lemma {:induction false} BlankIffAllTrimmed(s: string)
    ensures Trim(s) == [] <==> forall k :: 0 <= k < |s| ==> IsTrimmed(s[k])
  {
    var t := TrimStart(s);
    if t != [] {
      assert TrimEnd(t) != [] by { assert !IsTrimmed(t[0]); }
      assert s[|s| - |t|] == t[0];
    }
  }

  function DigitChar(d: nat): char
    requires d < 10
  {
    ('0' as int + d) as char
  }

  function DigitValue(c: char): nat
  {
    if '0' <= c <= '9' then (c - '0') as nat else 0
  }

  /** Decimal text of a non-negative int, as `StringBuilder.append(int)` writes it. */
  function NatToString(n: nat): (r: string)
    ensures |r| >= 1
    ensures forall k :: 0 <= k < |r| ==> '0' <= r[k] <= '9'
    ensures |r| > 1 ==> r[0] != '0'
    decreases n
  {
    if n < 10 then [DigitChar(n)] else NatToString(n / 10) + [DigitChar(n % 10)]
  }

  /** Reads a string of decimal digits back as a number. */
  function ParseNat(s: string): nat
  {
    if s == [] then 0 else ParseNat(s[..|s| - 1]) * 10 + DigitValue(s[|s| - 1])
  }

  lemma {:induction false} ParseNatToString(n: nat)
    ensures ParseNat(NatToString(n)) == n
    decreases n
  {
    var r := NatToString(n);
    if n < 10 {
      assert r == [DigitChar(n)];
      assert ParseNat(r) == ParseNat([]) * 10 + DigitValue(DigitChar(n));
    } else {
      var front := NatToString(n / 10);
      assert r == front + [DigitChar(n % 10)];
      assert r[..|r| - 1] == front;
      assert ParseNat(r) == ParseNat(front) * 10 + DigitValue(DigitChar(n % 10));
      ParseNatToString(n / 10);
    }
  }
}
