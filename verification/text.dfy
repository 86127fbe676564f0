/** The Python `str` operations the collectors, the resolver and the
    dashboards rely on, written out over `seq<char>`. */
module Text {
  import opened Wrappers
  import opened Seqs

  // ---------------------------------------------------------------------
  // Characters

  /** Python's `str.isspace()`: the characters `strip()` and `split()` drop. */
  predicate IsSpace(c: char) {
    c == ' ' || ('\t' <= c <= '\r') || ('\U{1c}' <= c <= '\U{1f}') ||
    c == '\U{85}' || c == '\U{a0}' || c == '\U{1680}' || ('\U{2000}' <= c <= '\U{200a}') ||
    c == '\U{2028}' || c == '\U{2029}' || c == '\U{202f}' || c == '\U{205f}' || c == '\U{3000}'
  }

  predicate IsUpper(c: char) {
    ('A' <= c <= 'Z') || ('À' <= c <= 'Þ' && c != '×')
  }

  /** `str.lower()` on one character: ASCII and Latin-1 capitals move down by 0x20. */
  function LowerChar(c: char): (r: char)
    ensures IsUpper(c) ==> r as int == c as int + 0x20
    ensures !IsUpper(c) ==> r == c
  {
    if IsUpper(c) then (c as int + 0x20) as char else c
  }

  function Lower(s: string): (r: string)
    ensures |r| == |s|
    ensures forall i :: 0 <= i < |s| ==> r[i] == LowerChar(s[i])
  {
    if s == [] then [] else [LowerChar(s[0])] + Lower(s[1..])
  }

  /** Lower-casing is idempotent: no lowered character is still a capital. */
  lemma LowerIdempotent(s: string)
    ensures Lower(Lower(s)) == Lower(s)
  {
    var l := Lower(s);
    forall i | 0 <= i < |s| ensures LowerChar(l[i]) == l[i] {
      assert !IsUpper(LowerChar(s[i]));
    }
  }

  // ---------------------------------------------------------------------
  // Substrings: Python `k in s`, `s.startswith(p)`, `s.find(k)`

  predicate IsPrefix(p: string, s: string) {
    |p| <= |s| && s[..|p|] == p
  }

  predicate Contains(s: string, k: string)
    decreases |s|
  {
    IsPrefix(k, s) || (|s| > 0 && Contains(s[1..], k))
  }

  /** Position of the first occurrence of `k` in `s`, like `s.find(k)`. */
  function IndexOf(s: string, k: string): (r: Option<nat>)
    decreases |s|
    ensures r.Some? <==> Contains(s, k)
    ensures r.Some? ==> r.value + |k| <= |s| && s[r.value..r.value + |k|] == k
    ensures r.Some? ==> forall j :: 0 <= j < r.value ==> !IsPrefix(k, s[j..])
    ensures r.None? ==> forall j :: 0 <= j <= |s| ==> !IsPrefix(k, s[j..])
  {
    if IsPrefix(k, s) then Some(0)
    else if |s| == 0 then None
    else match IndexOf(s[1..], k)
      case None =>
        TailSuffixes(s);
        None
      case Some(i) =>
        TailSuffixes(s);
        TailSlice(s, i, |k|);
        Some(i + 1)
  }

  /** An occurrence at any position makes `k in s` true. */
  lemma {:induction false} ContainsAt(s: string, k: string, i: nat)
    requires i + |k| <= |s| && s[i..i + |k|] == k
    ensures Contains(s, k)
    decreases i
  {
    if i > 0 {
      TailSlice(s, i - 1, |k|);
      ContainsAt(s[1..], k, i - 1);
    }
  }

  /** A key holding a character the text lacks cannot occur in it. */
  lemma {:induction false} NotContainsMissingChar(s: string, k: string, c: char)
    requires c in k && c !in s
    ensures !Contains(s, k)
    decreases |s|
  {
    if |s| > 0 {
      NotContainsMissingChar(s[1..], k, c);
    }
  }

  /** What occurs in a prefix of `s` occurs in `s`. */
  lemma {:induction false} ContainsInPrefix(p: string, s: string, m: string)
    requires IsPrefix(p, s) && Contains(p, m)
    ensures Contains(s, m)
    decreases |p|
  {
    if !IsPrefix(m, p) {
      assert s[1..][..|p| - 1] == p[1..];
      ContainsInPrefix(p[1..], s[1..], m);
    } else {
      assert s[..|m|] == p[..|m|];
    }
  }

  /** Being a substring is transitive. */
  lemma {:induction false} ContainsTransitive(s: string, k: string, m: string)
    requires Contains(s, k) && Contains(k, m)
    ensures Contains(s, m)
    decreases |s|
  {
    if IsPrefix(k, s) {
      ContainsInPrefix(k, s, m);
    } else {
      ContainsTransitive(s[1..], k, m);
    }
  }

  /** Python `s.split(sep)[0]` for a non-empty separator string. */
  function BeforeFirstText(s: string, sep: string): (r: string)
    ensures IsPrefix(r, s)
  {
    match IndexOf(s, sep)
    case Some(i) => s[..i]
    case None => s
  }

  /** `(d + sep + rest).split(sep)[0] == d` when `d` cannot hold the
      separator's first character. */
  lemma {:induction false} BeforeFirstTextOfJoin(d: string, sep: string, rest: string)
    requires |sep| > 0 && sep[0] !in d
    ensures BeforeFirstText(d + sep + rest, sep) == d
  {
    var s := d + sep + rest;
    assert s[|d|..|d| + |sep|] == sep;
    ContainsAt(s, sep, |d|);
    forall j | 0 <= j < |d| ensures !IsPrefix(sep, s[j..]) {
      assert s[j..][0] == d[j];
    }
    assert IsPrefix(sep, s[|d|..]);
  }

  // ---------------------------------------------------------------------
  // Splitting on one character: Python `s.split(c)`

  /** `s.split(c)`: always at least one piece, the pieces hold no `c`. */
  function Split(s: string, c: char): (r: seq<string>)
    decreases |s|
    ensures |r| >= 1
    ensures forall k :: 0 <= k < |r| ==> c !in r[k]
    ensures |r| == 1 <==> c !in s
  {
    if s == [] then [""]
    else
      var rest := Split(s[1..], c);
      if s[0] == c then [""] + rest
      else [[s[0]] + rest[0]] + rest[1..]
  }

  /** `c.join(parts)`. */
  function Join(parts: seq<string>, c: char): string
    decreases |parts|
  {
    if |parts| == 0 then ""
    else if |parts| == 1 then parts[0]
    else parts[0] + [c] + Join(parts[1..], c)
  }

  /** `c.join(s.split(c)) == s`: splitting loses nothing. */
  lemma {:induction false} JoinSplit(s: string, c: char)
    ensures Join(Split(s, c), c) == s
    decreases |s|
  {
    if s != [] {
      var rest := Split(s[1..], c);
      JoinSplit(s[1..], c);
      if s[0] == c {
        assert Split(s, c)[1..] == rest;
      } else {
        var r := Split(s, c);
        assert r[1..] == rest[1..];
        if |rest| > 1 {
          assert rest[0] + [c] + Join(rest[1..], c) == s[1..];
          assert r[0] + [c] + Join(r[1..], c) == [s[0]] + (rest[0] + [c] + Join(rest[1..], c));
        }
      }
    }
  }

  /** Splitting at a `c` splits the text on both sides of it:
      `(a + c + b).split(c) == a.split(c) + b.split(c)`. */
  lemma {:induction false} SplitConcat(a: string, c: char, b: string)
    ensures Split(a + [c] + b, c) == Split(a, c) + Split(b, c)
    decreases |a|
  {
    var s := a + [c] + b;
    if a == [] {
      assert s[1..] == b;
    } else {
      assert s[1..] == a[1..] + [c] + b;
      SplitConcat(a[1..], c, b);
    }
  }

  /** A text without `c` is a single piece. */
  lemma SplitWithout(s: string, c: char)
    requires c !in s
    ensures Split(s, c) == [s]
  {
    JoinSplit(s, c);
  }

  /** `s.split(c)` undoes `c.join(parts)` when no part holds `c`. */
  lemma {:induction false} SplitJoin(parts: seq<string>, c: char)
    requires parts != []
    requires forall k :: 0 <= k < |parts| ==> c !in parts[k]
    ensures Split(Join(parts, c), c) == parts
    decreases |parts|
  {
    if |parts| == 1 {
      SplitWithout(parts[0], c);
    } else {
      SplitJoin(parts[1..], c);
      SplitWithout(parts[0], c);
      SplitConcat(parts[0], c, Join(parts[1..], c));
    }
  }

  /** `sep.join(parts)` for a separator of any length. */
  function JoinWith(parts: seq<string>, sep: string): string
    decreases |parts|
  {
    if |parts| == 0 then ""
    else if |parts| == 1 then parts[0]
    else parts[0] + sep + JoinWith(parts[1..], sep)
  }

  /** Each part with `pad` in front. */
  function Prefixed(pad: string, parts: seq<string>): (r: seq<string>)
    ensures |r| == |parts|
    ensures forall k :: 0 <= k < |parts| ==> r[k] == pad + parts[k]
  {
    seq(|parts|, k requires 0 <= k < |parts| => pad + parts[k])
  }

  /** Text in front of a join lands in its first part. */
  lemma JoinPrepend(x: string, parts: seq<string>, c: char)
    requires parts != []
    ensures x + Join(parts, c) == Join([x + parts[0]] + parts[1..], c)
  {
    var q := [x + parts[0]] + parts[1..];
    assert q[1..] == parts[1..];
    if |parts| > 1 {
      assert x + (parts[0] + [c] + Join(parts[1..], c)) == (x + parts[0]) + [c] + Join(parts[1..], c);
    }
  }

  /** Joining with `c` and then `pad` puts `pad` in front of every part
      after the first of a join with `c` alone. */
  lemma {:induction false} JoinWithPadded(parts: seq<string>, c: char, pad: string)
    requires parts != []
    ensures JoinWith(parts, [c] + pad) == Join([parts[0]] + Prefixed(pad, parts[1..]), c)
    decreases |parts|
  {
    if |parts| > 1 {
      JoinWithPadded(parts[1..], c, pad);
      var rest := [parts[1]] + Prefixed(pad, parts[2..]);
      assert parts[1..][1..] == parts[2..];
      JoinPrepend(pad, rest, c);
      assert [pad + parts[1]] + Prefixed(pad, parts[2..]) == Prefixed(pad, parts[1..]);
      var all := [parts[0]] + Prefixed(pad, parts[1..]);
      assert all[1..] == Prefixed(pad, parts[1..]);
      assert JoinWith(parts, [c] + pad) == parts[0] + ([c] + pad) + JoinWith(parts[1..], [c] + pad);
      assert parts[0] + ([c] + pad) + Join(rest, c) == parts[0] + [c] + (pad + Join(rest, c));
    } else {
      assert Prefixed(pad, parts[1..]) == [];
      assert [parts[0]] + Prefixed(pad, parts[1..]) == [parts[0]];
    }
  }

  /** Python `s.split(c)[0]`: the text before the first `c`. */
  function BeforeFirst(s: string, c: char): string {
    Split(s, c)[0]
  }

  /** Python `s.split(c)[-1]`: the text after the last `c`. */
  function AfterLast(s: string, c: char): string {
    var parts := Split(s, c);
    parts[|parts| - 1]
  }

  /** The text before the first `c` is a prefix holding no `c`; it is all of
      `s` exactly when `s` holds no `c`, and otherwise `c` follows it. */
  lemma {:induction false} BeforeFirstSpec(s: string, c: char)
    ensures IsPrefix(BeforeFirst(s, c), s) && c !in BeforeFirst(s, c)
    ensures c !in s <==> BeforeFirst(s, c) == s
    ensures c in s ==> s[|BeforeFirst(s, c)|] == c
    decreases |s|
  {
    if s != [] {
      BeforeFirstSpec(s[1..], c);
      if s[0] != c {
        assert BeforeFirst(s, c) == [s[0]] + BeforeFirst(s[1..], c);
        assert c in s ==> c in s[1..];
      }
    }
  }

  /** One step of `rsplit`'s last part: a leading character that is not
      `c`, in a text with no other `c`, joins the last part. */
  lemma AfterLastCons(s: string, c: char)
    requires s != []
    ensures s[0] != c && c !in s[1..] ==> AfterLast(s, c) == [s[0]] + AfterLast(s[1..], c)
    ensures s[0] == c || c in s[1..] ==> AfterLast(s, c) == AfterLast(s[1..], c)
  {
    var rest := Split(s[1..], c);
    if s[0] == c {
      assert Split(s, c) == [""] + rest;
    } else {
      assert Split(s, c) == [[s[0]] + rest[0]] + rest[1..];
    }
  }

  /** The text after the last `c` is a suffix holding no `c`; it is all of
      `s` exactly when `s` holds no `c`, and otherwise `c` precedes it. */
  lemma {:induction false} AfterLastSpec(s: string, c: char)
    ensures var a := AfterLast(s, c);
      |a| <= |s| && s[|s| - |a|..] == a && c !in a &&
      (c !in s <==> a == s) &&
      (c in s ==> s[|s| - |a| - 1] == c)
    decreases |s|
  {
    if s == [] {
      assert Split(s, c) == [""];
    } else {
      var t := s[1..];
      AfterLastSpec(t, c);
      AfterLastCons(s, c);
      var a, a' := AfterLast(s, c), AfterLast(t, c);
      assert s == [s[0]] + t;
      assert t[|t| - |a'|..] == s[|s| - |a'|..];
      if s[0] != c && c !in t {
        assert a' == t && a == s;
      } else {
        assert a == a' && c in s;
        assert c in t ==> t[|t| - |a'| - 1] == s[|s| - |a| - 1];
        assert c !in t ==> a' == t && |s| - |a| - 1 == 0;
      }
    }
  }

  // ---------------------------------------------------------------------
  // Whitespace: Python `s.strip()` and `s.split()`

  function TrimStart(s: string): (r: string)
    decreases |s|
    ensures |r| <= |s| && r == s[|s| - |r|..]
    ensures r == [] || !IsSpace(r[0])
    ensures forall i :: 0 <= i < |s| - |r| ==> IsSpace(s[i])
  {
    if s != [] && IsSpace(s[0]) then TrimStart(s[1..]) else s
  }

  function TrimEnd(s: string): (r: string)
    decreases |s|
    ensures |r| <= |s| && r == s[..|r|]
    ensures r == [] || !IsSpace(r[|r| - 1])
    ensures forall i :: |r| <= i < |s| ==> IsSpace(s[i])
  {
    if s != [] && IsSpace(s[|s| - 1]) then TrimEnd(s[..|s| - 1]) else s
  }

  /** Python `s.strip()`. */
  function Strip(s: string): string {
    TrimEnd(TrimStart(s))
  }

  /** What `strip()` keeps is a slice of the input. */
  lemma StripContained(s: string)
    ensures Contains(s, Strip(s))
  {
    var a := TrimStart(s);
    var t := TrimEnd(a);
    var i := |s| - |a|;
    assert s[i..i + |t|] == a[..|t|];
    ContainsAt(s, t, i);
  }

  /** `strip()` leaves nothing exactly when the input is all spaces. */
  lemma StripEmpty(s: string)
    ensures Strip(s) == [] <==> AllSpace(s)
  {
    var a := TrimStart(s);
    var t := TrimEnd(a);
    assert a != [] ==> s[|s| - |a|] == a[0] && !IsSpace(a[0]);
    assert a != [] ==> t != [];
  }

  /** What `strip()` keeps is a slice of the input, begins and ends with a
      non-space, and is empty exactly when the input is all spaces. */
  lemma StripSpec(s: string)
    ensures var t := Strip(s);
      (t == [] || (!IsSpace(t[0]) && !IsSpace(t[|t| - 1]))) &&
      Contains(s, t) &&
      (t == [] <==> forall i :: 0 <= i < |s| ==> IsSpace(s[i]))
  {
    var t := Strip(s);
    assert t != [] ==> t[0] == TrimStart(s)[0];
    StripContained(s);
    StripEmpty(s);
  }

  /** A text that neither starts nor ends with a space is left alone by
      `strip()`. */
  lemma StripStripped(t: string)
    requires t == [] || (!IsSpace(t[0]) && !IsSpace(t[|t| - 1]))
    ensures Strip(t) == t
  {
  }

  /** Leading whitespace is all `TrimStart` removes from a text that does
      not start with whitespace after it. */
  lemma {:induction false} TrimStartSpaces(pad: string, x: string)
    requires AllSpace(pad) && (x == [] || !IsSpace(x[0]))
    ensures TrimStart(pad + x) == x
    decreases |pad|
  {
    if pad == [] {
      assert pad + x == x;
    } else {
      assert (pad + x)[1..] == pad[1..] + x;
      TrimStartSpaces(pad[1..], x);
    }
  }

  /** `strip()` removes whitespace put in front of a stripped text. */
  lemma StripPadded(pad: string, x: string)
    requires AllSpace(pad)
    requires x != [] && !IsSpace(x[0]) && !IsSpace(x[|x| - 1])
    ensures Strip(pad + x) == x
  {
    TrimStartSpaces(pad, x);
    StripStripped(x);
  }

  /** The longest prefix free of whitespace. */
  function TakeWord(s: string): (w: string)
    decreases |s|
    ensures IsPrefix(w, s)
    ensures forall i :: 0 <= i < |w| ==> !IsSpace(w[i])
    ensures |w| < |s| ==> IsSpace(s[|w|])
    ensures s != [] && !IsSpace(s[0]) ==> |w| >= 1
  {
    if s == [] || IsSpace(s[0]) then "" else [s[0]] + TakeWord(s[1..])
  }

  /** A non-empty run of non-space characters. */
  predicate IsWord(w: string) {
    w != [] && forall i :: 0 <= i < |w| ==> !IsSpace(w[i])
  }

  /** Python `s.split()`: maximal runs of non-space characters, in order. */
  function SplitWs(s: string): (r: seq<string>)
    decreases |s|
    ensures forall k :: 0 <= k < |r| ==> IsWord(r[k])
  {
    if s == [] then []
    else if IsSpace(s[0]) then SplitWs(s[1..])
    else
      var w := TakeWord(s);
      [w] + SplitWs(s[|w|..])
  }

  /** A word followed by a space, or by nothing, is taken whole. */
  lemma {:induction false} TakeWordOfWord(w: string, rest: string)
    requires IsWord(w) && (rest == [] || IsSpace(rest[0]))
    ensures TakeWord(w + rest) == w
    decreases |w|
  {
    var s := w + rest;
    if |w| > 1 {
      assert s[1..] == w[1..] + rest;
      TakeWordOfWord(w[1..], rest);
    } else {
      assert s[1..] == rest;
    }
  }

  /** Nothing but whitespace (possibly nothing at all). */
  predicate AllSpace(s: string) {
    forall i :: 0 <= i < |s| ==> IsSpace(s[i])
  }

  /** Whitespace in front changes nothing for `split()`. */
  lemma {:induction false} SplitWsSpaces(a: string, s: string)
    requires AllSpace(a)
    ensures SplitWs(a + s) == SplitWs(s)
    decreases |a|
  {
    if a == [] {
      assert a + s == s;
    } else {
      assert (a + s)[1..] == a[1..] + s;
      SplitWsSpaces(a[1..], s);
    }
  }

  /** `split()` finds no word exactly in a text of whitespace. */
  lemma {:induction false} SplitWsNone(s: string)
    ensures SplitWs(s) == [] <==> AllSpace(s)
    decreases |s|
  {
    if s != [] && IsSpace(s[0]) {
      SplitWsNone(s[1..]);
      assert AllSpace(s) <==> AllSpace(s[1..]) by {
        assert forall i :: 1 <= i < |s| ==> s[i] == s[1..][i - 1];
      }
    }
  }

  /** A word followed by a space, or by nothing, is the first word. */
  lemma SplitWsWord(w: string, rest: string)
    requires IsWord(w) && (rest == [] || IsSpace(rest[0]))
    ensures SplitWs(w + rest) == [w] + SplitWs(rest)
  {
    var s := w + rest;
    TakeWordOfWord(w, rest);
    assert s[0] == w[0];
    assert s[|w|..] == rest;
  }

  /** `split()` of two words with whitespace around and between them. */
  lemma TwoWordsPadded(a: string, u: string, b: string, v: string, d: string)
    requires IsWord(u) && IsWord(v)
    requires AllSpace(a) && AllSpace(b) && b != [] && AllSpace(d)
    ensures SplitWs(a + u + b + v + d) == [u, v]
  {
    var vd := v + d;
    var bvd := b + vd;
    var ubvd := u + bvd;
    assert a + u + b + v + d == a + ubvd;
    SplitWsNone(d);
    SplitWsWord(v, d);
    assert SplitWs(vd) == [v];
    SplitWsSpaces(b, vd);
    SplitWsWord(u, bvd);
    assert SplitWs(ubvd) == [u, v];
    SplitWsSpaces(a, ubvd);
  }

  /** The first word `split()` finds comes after leading whitespace and
      before whitespace or the end, and the other words are those of the
      rest. */
  lemma {:induction false} SplitWsFirst(s: string) returns (a: string, rest: string)
    requires SplitWs(s) != []
    ensures AllSpace(a) && s == a + SplitWs(s)[0] + rest
    ensures rest == [] || IsSpace(rest[0])
    ensures SplitWs(s)[1..] == SplitWs(rest)
    decreases |s|
  {
    if IsSpace(s[0]) {
      var t := s[1..];
      assert SplitWs(s) == SplitWs(t);
      var a1, r1 := SplitWsFirst(t);
      var w := SplitWs(s)[0];
      a, rest := [s[0]] + a1, r1;
      assert AllSpace(a) by {
        assert forall i :: 1 <= i < |a| ==> a[i] == a1[i - 1];
      }
      calc {
        s;
        [s[0]] + t;
        [s[0]] + (a1 + w + r1);
        a + w + rest;
      }
    } else {
      var w := TakeWord(s);
      a, rest := [], s[|w|..];
      assert SplitWs(s) == [w] + SplitWs(rest);
      assert s == w + rest;
    }
  }

  /** `s` is the words `u` and `v` with whitespace around them and at
      least one whitespace between them. */
  ghost predicate TwoWordsIn(s: string, u: string, v: string) {
    exists a, b, d ::
      AllSpace(a) && AllSpace(b) && b != [] && AllSpace(d) && s == a + u + b + v + d
  }

  /** When `split()` finds exactly two words, the text is those words with
      whitespace around them and between them. */
  lemma TwoWordsShape(s: string)
    requires |SplitWs(s)| == 2
    ensures TwoWordsIn(s, SplitWs(s)[0], SplitWs(s)[1])
  {
    var u, v := SplitWs(s)[0], SplitWs(s)[1];
    var a, rest := SplitWsFirst(s);
    assert SplitWs(rest) == [v];
    var b, d := SplitWsFirst(rest);
    assert SplitWs(d) == [];
    SplitWsNone(d);
    assert rest != [];
    assert IsSpace(rest[0]) && !IsSpace(v[0]);
    assert b != [];
    assert s == a + u + b + v + d;
  }

  // ---------------------------------------------------------------------
  // Ordering: Python's `<=` on strings, as `sorted` uses it

  /** Python's `a <= b` on strings: code point by code point, and a proper
      prefix comes first. */
  predicate StringLe(a: string, b: string)
    decreases |a|
  {
    a == [] || (b != [] && (a[0] < b[0] || (a[0] == b[0] && StringLe(a[1..], b[1..]))))
  }

  lemma {:induction false} StringLeTotal(a: string, b: string)
    ensures StringLe(a, b) || StringLe(b, a)
    decreases |a|
  {
    if a != [] && b != [] && a[0] == b[0] {
      StringLeTotal(a[1..], b[1..]);
    }
  }

  lemma {:induction false} StringLeTransitive(a: string, b: string, c: string)
    requires StringLe(a, b) && StringLe(b, c)
    ensures StringLe(a, c)
    decreases |a|
  {
    if a != [] && a[0] == b[0] && b[0] == c[0] {
      StringLeTransitive(a[1..], b[1..], c[1..]);
    }
  }

  lemma {:induction false} StringLeAntisymmetric(a: string, b: string)
    requires StringLe(a, b) && StringLe(b, a)
    ensures a == b
    decreases |a|
  {
    if a != [] {
      StringLeAntisymmetric(a[1..], b[1..]);
      assert a == [a[0]] + a[1..] && b == [b[0]] + b[1..];
    }
  }

  /** The order `sorted` puts strings in. */
  function ByString(): (string, string) -> bool {
    (a: string, b: string) => StringLe(a, b)
  }

  lemma ByStringIsPreorder()
    ensures TotalPreorder(ByString())
  {
    forall a, b ensures StringLe(a, b) || StringLe(b, a) {
      StringLeTotal(a, b);
    }
    forall a, b, c | StringLe(a, b) && StringLe(b, c) ensures StringLe(a, c) {
      StringLeTransitive(a, b, c);
    }
  }
}
