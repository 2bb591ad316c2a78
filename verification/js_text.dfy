/**
 * The parts of JavaScript's string and array library that the tool widgets rely on, stated over
 * sequences: UTF-16 code units, `trim`, `split`/`join` on a one-element separator,
 * `filter(e => e !== x)`, `slice`, `indexOf`/`includes`, `parseInt(s, 16)` and
 * `String.fromCharCode`.
 */
module JsText {
  import opened Wrappers

  /** One UTF-16 code unit: what `charCodeAt` returns and what a JavaScript string is made of. */
  type CodeUnit = x: int | 0 <= x < 0x1_0000

  type JsString = seq<CodeUnit>

  /** ECMAScript LineTerminator: LF, CR, LINE SEPARATOR, PARAGRAPH SEPARATOR. */
  predicate IsLineTerminator(c: int) {
    c == 0x0A || c == 0x0D || c == 0x2028 || c == 0x2029
  }

  /** ECMAScript WhiteSpace (TAB, VT, FF, ZWNBSP and the space separators) or LineTerminator. */
  predicate IsSpaceCode(c: int) {
    || c == 0x09 || c == 0x0B || c == 0x0C || c == 0xFEFF
    || c == 0x20 || c == 0xA0 || c == 0x1680 || 0x2000 <= c <= 0x200A
    || c == 0x202F || c == 0x205F || c == 0x3000
    || IsLineTerminator(c)
  }

  predicate IsSpaceChar(c: char) {
    IsSpaceCode(c as int)
  }

  predicate IsSpaceUnit(c: CodeUnit) {
    IsSpaceCode(c)
  }

  predicate AllSpace<T>(s: seq<T>, space: T -> bool) {
    forall k :: 0 <= k < |s| ==> space(s[k])
  }

  /** Drops leading white space. */
  function TrimStart<T>(s: seq<T>, space: T -> bool): (r: seq<T>)
    ensures |r| <= |s| && r == s[|s| - |r|..]
    ensures r != [] ==> !space(r[0])
    decreases |s|
  {
    if s != [] && space(s[0]) then TrimStart(s[1..], space) else s
  }

  /** What `TrimStart` drops is white space. */
  lemma {:induction false} TrimStartDropsSpace<T>(s: seq<T>, space: T -> bool)
    ensures AllSpace(s[..|s| - |TrimStart(s, space)|], space)
    decreases |s|
  {
    if s != [] && space(s[0]) {
      TrimStartDropsSpace(s[1..], space);
      var n := |s| - |TrimStart(s, space)|;
      forall k | 0 <= k < n ensures space(s[..n][k]) {
        if k > 0 {
          assert s[..n][k] == s[1..][..n - 1][k - 1];
        }
      }
    }
  }

  /** Drops trailing white space. */
  function TrimEnd<T>(s: seq<T>, space: T -> bool): (r: seq<T>)
    ensures |r| <= |s| && r == s[..|r|]
    ensures r != [] ==> !space(r[|r| - 1])
    decreases |s|
  {
    if s != [] && space(s[|s| - 1]) then TrimEnd(s[..|s| - 1], space) else s
  }

  /** What `TrimEnd` drops is white space. */
  lemma {:induction false} TrimEndDropsSpace<T>(s: seq<T>, space: T -> bool)
    ensures AllSpace(s[|TrimEnd(s, space)|..], space)
    decreases |s|
  {
    if s != [] && space(s[|s| - 1]) {
      var init := s[..|s| - 1];
      TrimEndDropsSpace(init, space);
      var n := |TrimEnd(s, space)|;
      forall k | 0 <= k < |s| - n ensures space(s[n..][k]) {
        if n + k < |s| - 1 {
          assert s[n..][k] == init[n..][k];
        }
      }
    }
  }

  /** `String.prototype.trim`: the text without its leading and trailing white space. */
  function Trim<T>(s: seq<T>, space: T -> bool): (r: seq<T>)
    ensures |r| <= |s|
    ensures r != [] ==> !space(r[0]) && !space(r[|r| - 1])
  {
    var t := TrimStart(s, space);
    var r := TrimEnd(t, space);
    assert r != [] ==> r[0] == t[0];
    r
  }

  /** Trimming leaves nothing exactly when the text is all white space. */
  lemma TrimBlank<T>(s: seq<T>, space: T -> bool)
    ensures Trim(s, space) == [] <==> AllSpace(s, space)
  {
    var t := TrimStart(s, space);
    var r := TrimEnd(t, space);
    var n := |s| - |t|;
    TrimStartDropsSpace(s, space);
    if r == [] {
      if t != [] {
        TrimEndDropsSpace(t, space);
      }
      forall k | 0 <= k < |s| ensures space(s[k]) {
        assert s[k] == s[..n][k];
      }
    } else {
      assert r[0] == t[0] == s[n];
    }
  }

  function TrimString(s: string): string {
    Trim(s, IsSpaceChar)
  }

  /** `parts.join(sep)` for a one-element separator. */
  function Join<T>(parts: seq<seq<T>>, sep: T): seq<T>
    decreases |parts|
  {
    if parts == [] then []
    else if |parts| == 1 then parts[0]
    else parts[0] + [sep] + Join(parts[1..], sep)
  }

  /** `s.split(sep)` for a one-element separator: the pieces between the separators, in order. */
  function Split<T(==)>(s: seq<T>, sep: T): (r: seq<seq<T>>)
    ensures |r| == multiset(s)[sep] + 1
    ensures forall i :: 0 <= i < |r| ==> sep !in r[i]
    decreases |s|
  {
    if s == [] then [[]]
    else
      var rest := Split(s[1..], sep);
      assert s == [s[0]] + s[1..];
      if s[0] == sep then
        [[]] + rest
      else
        var r := [[s[0]] + rest[0]] + rest[1..];
        assert r[1..] == rest[1..];
        r
  }

  /** Joining the pieces of a split gives the string back. */
  lemma {:induction false} JoinSplit<T>(s: seq<T>, sep: T)
    ensures Join(Split(s, sep), sep) == s
    decreases |s|
  {
    if s != [] {
      var c, tail := s[0], s[1..];
      assert s == [c] + tail;
      JoinSplit(tail, sep);
      if c == sep {
        JoinSplitSeparator(tail, sep);
      } else {
        JoinSplitOther(c, tail, sep);
      }
    }
  }

  lemma JoinSplitSeparator<T>(tail: seq<T>, sep: T)
    requires Join(Split(tail, sep), sep) == tail
    ensures Join(Split([sep] + tail, sep), sep) == [sep] + tail
  {
    var rest := Split(tail, sep);
    SplitOfSeparator(tail, sep);
    var r := [[]] + rest;
    assert r[1..] == rest;
    assert Join(r, sep) == [] + [sep] + Join(rest, sep);
  }

  lemma JoinSplitOther<T>(c: T, tail: seq<T>, sep: T)
    requires c != sep && Join(Split(tail, sep), sep) == tail
    ensures Join(Split([c] + tail, sep), sep) == [c] + tail
  {
    var rest := Split(tail, sep);
    SplitOfOther(c, tail, sep);
    assert rest == [rest[0]] + rest[1..];
    JoinOfCons(c, rest[0], rest[1..], sep);
  }

  lemma SplitOfSeparator<T>(s: seq<T>, sep: T)
    ensures Split([sep] + s, sep) == [[]] + Split(s, sep)
  {
    assert ([sep] + s)[1..] == s;
  }

  lemma SplitOfOther<T>(c: T, s: seq<T>, sep: T)
    requires c != sep
    ensures Split([c] + s, sep) == [[c] + Split(s, sep)[0]] + Split(s, sep)[1..]
  {
    assert ([c] + s)[1..] == s;
  }

  lemma JoinOfCons<T>(c: T, p: seq<T>, rest: seq<seq<T>>, sep: T)
    ensures Join([[c] + p] + rest, sep) == [c] + Join([p] + rest, sep)
  {
    var parts := [[c] + p] + rest;
    assert parts[1..] == rest;
    assert ([p] + rest)[1..] == rest;
  }

  /** `split` undoes `join` when no part holds the separator. */
  lemma {:induction false} SplitJoin<T>(parts: seq<seq<T>>, sep: T)
    requires parts != []
    requires forall i :: 0 <= i < |parts| ==> sep !in parts[i]
    ensures Split(Join(parts, sep), sep) == parts
    decreases |parts|, |parts[0]|
  {
    var head, rest := parts[0], parts[1..];
    assert parts == [head] + rest;
    if head == [] {
      if rest != [] {
        SplitJoin(rest, sep);
        SplitJoinEmptyHead(rest, sep);
      }
    } else {
      var shorter := [head[1..]] + rest;
      assert head == [head[0]] + head[1..];
      assert shorter[1..] == rest;
      forall i | 0 <= i < |shorter| ensures sep !in shorter[i] {
        if i > 0 {
          assert shorter[i] == parts[i];
        }
      }
      SplitJoin(shorter, sep);
      SplitJoinOther(head[0], head[1..], rest, sep);
    }
  }

  lemma SplitJoinEmptyHead<T>(rest: seq<seq<T>>, sep: T)
    requires rest != [] && Split(Join(rest, sep), sep) == rest
    ensures Split(Join([[]] + rest, sep), sep) == [[]] + rest
  {
    var parts := [[]] + rest;
    assert parts[1..] == rest;
    assert Join(parts, sep) == [sep] + Join(rest, sep);
    SplitOfSeparator(Join(rest, sep), sep);
  }

  lemma SplitJoinOther<T>(c: T, p: seq<T>, rest: seq<seq<T>>, sep: T)
    requires c != sep && Split(Join([p] + rest, sep), sep) == [p] + rest
    ensures Split(Join([[c] + p] + rest, sep), sep) == [[c] + p] + rest
  {
    JoinOfCons(c, p, rest, sep);
    SplitOfOther(c, Join([p] + rest, sep), sep);
    assert ([p] + rest)[0] == p && ([p] + rest)[1..] == rest;
  }

  /** `s.filter(e => e !== x)`: every occurrence of `x` dropped, every other element kept. */
  function Remove<T(==)>(s: seq<T>, x: T): (r: seq<T>)
    ensures x !in r
    ensures |r| <= |s|
    ensures x !in s ==> r == s
    decreases |s|
  {
    if s == [] then []
    else
      if s[0] == x then Remove(s[1..], x) else [s[0]] + Remove(s[1..], x)
  }

  /** What filtering keeps is what it was given, less `x`. */
  lemma {:induction false} RemoveMembers<T>(s: seq<T>, x: T)
    ensures forall y :: y in Remove(s, x) <==> y in s && y != x
    decreases |s|
  {
    if s != [] {
      RemoveMembers(s[1..], x);
      assert s == [s[0]] + s[1..];
    }
  }

  /** Filtering keeps every other element as often as it occurred. */
  lemma {:induction false} RemoveMultiset<T>(s: seq<T>, x: T)
    ensures multiset(Remove(s, x)) == multiset(s)[x := 0]
    decreases |s|
  {
    if s != [] {
      assert s == [s[0]] + s[1..];
      RemoveMultiset(s[1..], x);
    }
  }

  lemma RemoveCons<T>(c: T, s: seq<T>, x: T)
    ensures c == x ==> Remove([c] + s, x) == Remove(s, x)
    ensures c != x ==> Remove([c] + s, x) == [c] + Remove(s, x)
  {
    assert ([c] + s)[1..] == s;
  }

  /** Filtering keeps the relative order of what it keeps: it distributes over concatenation. */
  lemma {:induction false} RemoveConcat<T>(a: seq<T>, b: seq<T>, x: T)
    ensures Remove(a + b, x) == Remove(a, x) + Remove(b, x)
    decreases |a|
  {
    if a == [] {
      assert a + b == b;
    } else {
      assert (a + b)[0] == a[0] && (a + b)[1..] == a[1..] + b;
      RemoveConcat(a[1..], b, x);
    }
  }

  /** Filtering out the one `x` of a list gives the elements before and after it, in order. */
  lemma RemoveOnly<T>(a: seq<T>, b: seq<T>, x: T)
    requires x !in a && x !in b
    ensures Remove(a + [x] + b, x) == a + b
  {
    RemoveConcat(a + [x], b, x);
    RemoveAppended(a, x);
  }

  /** An `x` appended to the list is filtered out with the rest. */
  lemma {:induction false} RemoveAppended<T>(s: seq<T>, x: T)
    ensures Remove(s + [x], x) == Remove(s, x)
    decreases |s|
  {
    var sx := s + [x];
    if s == [] {
      assert sx == [x] && sx[1..] == [];
    } else {
      assert sx[0] == s[0] && sx[1..] == s[1..] + [x];
      RemoveAppended(s[1..], x);
    }
  }

  /** Filtering a list without repeats leaves a list without repeats. */
  lemma {:induction false} RemoveNoDuplicates<T>(s: seq<T>, x: T)
    requires NoDuplicates(s)
    ensures NoDuplicates(Remove(s, x))
    decreases |s|
  {
    if s != [] {
      var tail := s[1..];
      assert NoDuplicates(tail) by {
        forall i, j | 0 <= i < j < |tail| ensures tail[i] != tail[j] {
          assert tail[i] == s[i + 1] && tail[j] == s[j + 1];
        }
      }
      RemoveNoDuplicates(tail, x);
      RemoveMembers(tail, x);
      if s[0] != x {
        var rt := Remove(tail, x);
        var r := [s[0]] + rt;
        assert Remove(s, x) == r;
        assert s[0] !in tail by {
          forall j | 0 <= j < |tail| ensures tail[j] != s[0] {
            assert tail[j] == s[j + 1];
          }
        }
        forall i, j | 0 <= i < j < |r| ensures r[i] != r[j] {
          assert r[j] == rt[j - 1];
          if i > 0 {
            assert r[i] == rt[i - 1];
          } else {
            assert rt[j - 1] in rt;
          }
        }
      }
    }
  }

  /** `s.slice(0, n)`. */
  function Take<T>(s: seq<T>, n: nat): (r: seq<T>)
    ensures |r| == if |s| <= n then |s| else n
    ensures r <= s
  {
    if |s| <= n then s else s[..n]
  }

  /** `s.slice(-n)` for a positive `n`: the last `n` elements, or all of them if there are fewer. */
  function TakeLast<T>(s: seq<T>, n: nat): (r: seq<T>)
    requires n > 0
    ensures |r| == if |s| <= n then |s| else n
    ensures r == s[|s| - |r|..]
  {
    if |s| <= n then s else s[|s| - n..]
  }

  predicate NoDuplicates<T(==)>(s: seq<T>) {
    forall i, j :: 0 <= i < j < |s| ==> s[i] != s[j]
  }

  predicate OccursAt<T(==)>(s: seq<T>, sub: seq<T>, k: int) {
    0 <= k && k + |sub| <= |s| && s[k..k + |sub|] == sub
  }

  lemma OccursAtShift<T>(s: seq<T>, sub: seq<T>, k: int)
    requires s != [] && k >= 1
    ensures OccursAt(s, sub, k) <==> OccursAt(s[1..], sub, k - 1)
  {
    if k + |sub| <= |s| {
      var a, b := s[k..k + |sub|], s[1..][k - 1..k - 1 + |sub|];
      forall i | 0 <= i < |sub| ensures a[i] == b[i] {
        assert a[i] == s[k + i] && b[i] == s[1..][k - 1 + i];
      }
      assert a == b;
    }
  }

  /** `s.indexOf(sub)`: the first position where `sub` occurs, or -1. */
  function IndexOf<T(==)>(s: seq<T>, sub: seq<T>): (r: int)
    ensures r == -1 || OccursAt(s, sub, r)
    ensures forall k :: 0 <= k && (r == -1 || k < r) ==> !OccursAt(s, sub, k)
    decreases |s|
  {
    if |sub| > |s| then -1
    else if s[..|sub|] == sub then 0
    else
      var t := IndexOf(s[1..], sub);
      forall k | 1 <= k ensures OccursAt(s, sub, k) <==> OccursAt(s[1..], sub, k - 1) {
        OccursAtShift(s, sub, k);
      }
      if t == -1 then -1 else t + 1
  }

  /** `s.includes(sub)`. */
  predicate Contains<T(==)>(s: seq<T>, sub: seq<T>) {
    IndexOf(s, sub) >= 0
  }

  // ---- parseInt(s, 16) and String.fromCharCode ----

  predicate IsHexDigit(c: int) {
    0x30 <= c <= 0x39 || 0x41 <= c <= 0x46 || 0x61 <= c <= 0x66
  }

  function HexDigitValue(c: int): (v: nat)
    requires IsHexDigit(c)
    ensures v < 16
  {
    if c <= 0x39 then c - 0x30 else if c <= 0x46 then c - 0x41 + 10 else c - 0x61 + 10
  }

  /** The lower-case digit `Number.prototype.toString(16)` writes for `d`. */
  function LowerHexDigit(d: nat): (c: CodeUnit)
    requires d < 16
    ensures IsHexDigit(c) && HexDigitValue(c) == d
    ensures 0x30 <= c <= 0x39 || 0x61 <= c <= 0x66
  {
    if d < 10 then 0x30 + d else 0x61 + d - 10
  }

  predicate AllHex(s: seq<int>) {
    forall i :: 0 <= i < |s| ==> IsHexDigit(s[i])
  }

  function Pow16(n: nat): (p: nat)
    ensures p >= 1
  {
    if n == 0 then 1 else 16 * Pow16(n - 1)
  }

  /** The number a run of hex digits denotes, most significant digit first. */
  function HexValue(s: seq<int>): (v: nat)
    requires AllHex(s)
    ensures v < Pow16(|s|)
  {
    if s == [] then 0 else HexValue(s[..|s| - 1]) * 16 + HexDigitValue(s[|s| - 1])
  }

  /** The length of the longest prefix made of hex digits. */
  function HexPrefixLength(s: seq<int>): (n: nat)
    ensures n <= |s| && AllHex(s[..n])
    ensures n < |s| ==> !IsHexDigit(s[n])
    decreases |s|
  {
    if s == [] || !IsHexDigit(s[0]) then 0
    else
      var n := 1 + HexPrefixLength(s[1..]);
      assert forall i :: 1 <= i < n ==> s[..n][i] == s[1..][..n - 1][i - 1];
      n
  }

  /** Drops one leading `+` or `-`. */
  function StripSign(t: seq<int>): (u: seq<int>)
    ensures u == t || (t != [] && u == t[1..])
  {
    if t != [] && (t[0] == 0x2B || t[0] == 0x2D) then t[1..] else t
  }

  /** Drops a leading `0x` or `0X`, which radix 16 allows. */
  function StripHexPrefix(u: seq<int>): (d: seq<int>)
    ensures d == u || (|u| >= 2 && d == u[2..] && !IsHexDigit(u[1]))
  {
    if |u| >= 2 && u[0] == 0x30 && (u[1] == 0x78 || u[1] == 0x58) then u[2..] else u
  }

  /** Drops leading white space and line terminators, as `parseInt` does. */
  function SkipSpace(s: seq<int>): (t: seq<int>)
    ensures |t| <= |s|
    ensures t != [] ==> !IsSpaceCode(t[0])
    decreases |s|
  {
    if s != [] && IsSpaceCode(s[0]) then SkipSpace(s[1..]) else s
  }

  /**
   * `parseInt(s, 16)`: leading white space skipped, an optional sign, an optional `0x`/`0X`,
   * then the longest run of hex digits; `None` stands for `NaN` (no digit at all).
   */
  function ParseInt16(s: seq<int>): (r: Option<int>)
    ensures AllHex(s) && s != [] ==> r == Some(HexValue(s))
    ensures s == [] ==> r == None
  {
    HexDigitsOnly(s);
    var t := SkipSpace(s);
    var digits := StripHexPrefix(StripSign(t));
    var n := HexPrefixLength(digits);
    if n == 0 then None
    else if t[0] == 0x2D then Some(0 - HexValue(digits[..n]))
    else Some(HexValue(digits[..n]))
  }

  /** A run of hex digits has no space, sign or `0x` to skip, and is a digit run to its end. */
  lemma HexDigitsOnly(s: seq<int>)
    ensures AllHex(s) && s != [] ==>
      && SkipSpace(s) == s && s[0] != 0x2D
      && StripHexPrefix(StripSign(s)) == s && HexPrefixLength(s) == |s| && s[..|s|] == s
  {
    if AllHex(s) && s != [] {
      assert IsHexDigit(s[0]) && !IsSpaceCode(s[0]);
      if |s| >= 2 {
        assert IsHexDigit(s[1]);
      }
    }
  }

  /** `String.fromCharCode(v)`: ToUint16, with `NaN` giving code unit 0. */
  function FromCharCode(v: Option<int>): (c: CodeUnit)
    ensures v.Some? && 0 <= v.value < 0x1_0000 ==> c == v.value
    ensures v.None? ==> c == 0
  {
    match v
    case None => 0
    case Some(n) => n % 0x1_0000
  }
}
