/** The string handling the address resolver relies on: Python's `str.strip()`
    (no arguments), `str.split(sep)` with a one-character separator, and the
    split-strip-drop-empty idiom built from them. */
module Text {

  /** The characters argument-less `str.strip()` removes: the code points
      Python's `str.isspace` accepts, namely U+0009 to U+000D, U+001C to
      U+0020, U+0085, U+00A0, U+1680, U+2000 to U+200A, U+2028, U+2029,
      U+202F, U+205F and U+3000. */
  predicate IsSpace(c: char) {
    if c <= ' ' then '\t' <= c <= '\r' || '\U{1C}' <= c
    else if c < '\U{1680}' then c == '\U{85}' || c == '\U{A0}'
    else if c < '\U{2000}' then c == '\U{1680}'
    else if c <= '\U{200A}' then true
    else c == '\U{2028}' || c == '\U{2029}' || c == '\U{202F}' || c == '\U{205F}' || c == '\U{3000}'
  }

  predicate AllSpace(s: string) {
    forall i :: 0 <= i < |s| ==> IsSpace(s[i])
  }

  /** No whitespace at either end. */
  predicate Trimmed(s: string) {
    s == [] || (!IsSpace(s[0]) && !IsSpace(s[|s| - 1]))
  }

  /** A token as the resolver emits it: non-empty, trimmed, comma-free. */
  predicate IsToken(t: string) {
    t != [] && Trimmed(t) && ',' !in t
  }

  /** `s.lstrip()`: a suffix of `s` that does not start with whitespace. */
  function TrimStart(s: string): (r: string)
    ensures |r| <= |s| && r == s[|s| - |r|..]
    ensures r == [] || !IsSpace(r[0])
  {
    if s != [] && IsSpace(s[0]) then TrimStart(s[1..]) else s
  }

  /** `s.rstrip()`: a prefix of `s` that does not end with whitespace. */
  function TrimEnd(s: string): (r: string)
    ensures |r| <= |s| && r == s[..|r|]
    ensures r == [] || !IsSpace(r[|r| - 1])
  {
    if s != [] && IsSpace(s[|s| - 1]) then TrimEnd(s[..|s| - 1]) else s
  }

  /** `lstrip` removes only whitespace. */
  lemma {:induction false} TrimStartCut(s: string)
    ensures AllSpace(s[..|s| - |TrimStart(s)|])
  {
    if s != [] && IsSpace(s[0]) {
      TrimStartCut(s[1..]);
      var k := |s| - |TrimStart(s)|;
      assert s[..k] == [s[0]] + s[1..][..k - 1];
    }
  }

  /** `rstrip` removes only whitespace. */
  lemma {:induction false} TrimEndCut(s: string)
    ensures AllSpace(s[|TrimEnd(s)|..])
  {
    if s != [] && IsSpace(s[|s| - 1]) {
      var init := s[..|s| - 1];
      TrimEndCut(init);
      var k := |TrimEnd(s)|;
      assert s[k..] == init[k..] + [s[|s| - 1]];
    }
  }

  /** `r` is what is left of `s` once whitespace padding of `s[..i]` on the
      left and `s[i + |r|..]` on the right is cut away. */
  predicate Unpadded(s: string, i: nat, r: string) {
    && i + |r| <= |s|
    && s[i..i + |r|] == r
    && AllSpace(s[..i])
    && AllSpace(s[i + |r|..])
  }

  /** `s.strip()`: no whitespace is left at either end. */
  function Strip(s: string): (r: string)
    ensures Trimmed(r)
  {
    TrimEnd(TrimStart(s))
  }

  /** `Strip` only cuts whitespace, and only from the two ends: its result is
      a slice of `s` with all-whitespace text on either side. */
  lemma StripUnpadded(s: string)
    ensures exists i: nat :: Unpadded(s, i, Strip(s))
  {
    var t := TrimStart(s);
    var r := TrimEnd(t);
    var i := |s| - |t|;
    TrimStartCut(s);
    TrimEndCut(t);
    assert s[i..i + |r|] == r;
    assert s[i + |r|..] == t[|r|..];
    assert Strip(s) == r && Unpadded(s, i, r);
  }

  lemma SliceMember(s: string, i: nat, j: nat, c: char)
    requires i <= j <= |s| && c in s[i..j]
    ensures c in s
  {
    var k :| 0 <= k < j - i && s[i..j][k] == c;
    assert s[i + k] == c;
  }

  /** Stripping keeps only characters of the original. */
  lemma StripSubset(s: string, c: char)
    requires c in Strip(s)
    ensures c in s
  {
    var t := TrimStart(s);
    var r := TrimEnd(t);
    assert c in t[..|r|];
    SliceMember(t, 0, |r|, c);
    SliceMember(s, |s| - |t|, |s|, c);
  }

  lemma {:induction false} TrimStartSkips(pre: string, t: string)
    requires AllSpace(pre)
    requires t == [] || !IsSpace(t[0])
    ensures TrimStart(pre + t) == t
    decreases |pre|
  {
    if pre != [] {
      assert (pre + t)[1..] == pre[1..] + t;
      TrimStartSkips(pre[1..], t);
    } else {
      assert pre + t == t;
    }
  }

  lemma {:induction false} TrimEndSkips(t: string, post: string)
    requires AllSpace(post)
    requires t == [] || !IsSpace(t[|t| - 1])
    ensures TrimEnd(t + post) == t
    decreases |post|
  {
    if post != [] {
      var p := post[..|post| - 1];
      assert (t + post)[..|t + post| - 1] == t + p;
      TrimEndSkips(t, p);
    } else {
      assert t + post == t;
    }
  }

  /** The converse of `Strip`'s contract: cutting whitespace padding off a
      trimmed core gives back exactly that core, so `Strip` is determined by
      its contract. */
  lemma StripOfPadded(pre: string, m: string, post: string)
    requires AllSpace(pre) && AllSpace(post) && Trimmed(m)
    ensures Strip(pre + m + post) == m
  {
    if m == [] {
      assert pre + m + post == (pre + post) + [];
      TrimStartSkips(pre + post, []);
    } else {
      assert pre + m + post == pre + (m + post);
      TrimStartSkips(pre, m + post);
      TrimEndSkips(m, post);
    }
  }

  /** Text with no whitespace at either end strips to itself. */
  lemma StripTrimmed(s: string)
    requires Trimmed(s)
    ensures Strip(s) == s
  {
    assert [] + s + [] == s;
    StripOfPadded([], s, []);
  }

  /** Stripping twice is stripping once. */
  lemma StripIdempotent(s: string)
    ensures Strip(Strip(s)) == Strip(s)
  {
    var r := Strip(s);
    assert [] + r + [] == r;
    StripOfPadded([], r, []);
  }

  /** A string strips to nothing exactly when it is all whitespace. */
  lemma StripEmptyIff(s: string)
    ensures Strip(s) == [] <==> AllSpace(s)
  {
    if AllSpace(s) {
      assert [] + [] + s == s;
      StripOfPadded([], [], s);
    }
    if Strip(s) == [] {
      StripUnpadded(s);
      var i: nat :| Unpadded(s, i, Strip(s));
      assert i <= |s| && AllSpace(s[..i]) && AllSpace(s[i..]);
      forall k | 0 <= k < |s| ensures IsSpace(s[k]) {
        if k < i { assert s[..i][k] == s[k]; } else { assert s[i..][k - i] == s[k]; }
      }
    }
  }

  /** `parts` glued back together with `sep`: Python's `sep.join(parts)`. */
  function Join(parts: seq<string>, sep: char): string {
    if parts == [] then []
    else if |parts| == 1 then parts[0]
    else parts[0] + [sep] + Join(parts[1..], sep)
  }

  /** `s.split(sep)`: the maximal separator-free pieces of `s`, including
      empty ones, in order. */
  function Split(s: string, sep: char): (r: seq<string>)
    ensures |r| >= 1
  {
    if s == [] then [[]]
    else
      var rest := Split(s[1..], sep);
      if s[0] == sep then [[]] + rest
      else [[s[0]] + rest[0]] + rest[1..]
  }

  /** No piece contains the separator. */
  lemma {:induction false} SplitPiecesFree(s: string, sep: char)
    ensures forall i :: 0 <= i < |Split(s, sep)| ==> sep !in Split(s, sep)[i]
    decreases |s|
  {
    if s != [] {
      SplitPiecesFree(s[1..], sep);
      var rest := Split(s[1..], sep);
      if s[0] != sep {
        var r := Split(s, sep);
        assert r[0] == [s[0]] + rest[0];
        assert forall i :: 1 <= i < |r| ==> r[i] == rest[i];
      }
    }
  }

  /** Joining the pieces with the separator gives the string back. */
  lemma {:induction false} JoinSplit(s: string, sep: char)
    ensures Join(Split(s, sep), sep) == s
    decreases |s|
  {
    if s != [] {
      JoinSplit(s[1..], sep);
      var rest := Split(s[1..], sep);
      var r := Split(s, sep);
      if s[0] == sep {
        assert r == [[]] + rest;
        assert r[1..] == rest;
      } else {
        assert r == [[s[0]] + rest[0]] + rest[1..];
        assert r[1..] == rest[1..];
        if |rest| > 1 {
          assert Join(rest, sep) == rest[0] + [sep] + Join(rest[1..], sep);
          assert Join(r, sep) == r[0] + [sep] + Join(r[1..], sep);
        }
      }
    }
  }

  lemma {:induction false} SplitNoSeparator(s: string, sep: char)
    requires sep !in s
    ensures Split(s, sep) == [s]
    decreases |s|
  {
    if s != [] {
      assert s[0] in s;
      SplitNoSeparator(s[1..], sep);
      assert [s[0]] + s[1..] == s;
    }
  }

  /** A separator-free head followed by a separator splits off as one piece. */
  lemma {:induction false} SplitAfter(p: string, sep: char, t: string)
    requires sep !in p
    ensures Split(p + [sep] + t, sep) == [p] + Split(t, sep)
    decreases |p|
  {
    if p == [] {
      assert p + [sep] + t == [sep] + t;
      assert ([sep] + t)[1..] == t;
    } else {
      assert (p + [sep] + t)[1..] == p[1..] + [sep] + t;
      assert p[0] in p;
      SplitAfter(p[1..], sep, t);
      assert [p[0]] + p[1..] == p;
    }
  }

  /** Splitting inverts joining whenever no piece contains the separator. */
  lemma {:induction false} SplitJoin(parts: seq<string>, sep: char)
    requires |parts| >= 1
    requires forall i :: 0 <= i < |parts| ==> sep !in parts[i]
    ensures Split(Join(parts, sep), sep) == parts
    decreases |parts|
  {
    if |parts| == 1 {
      SplitNoSeparator(parts[0], sep);
    } else {
      SplitJoin(parts[1..], sep);
      SplitAfter(parts[0], sep, Join(parts[1..], sep));
      assert [parts[0]] + parts[1..] == parts;
    }
  }

  /** Joining two non-empty lists of pieces puts one separator between. */
  lemma {:induction false} JoinConcat(p: seq<string>, q: seq<string>, sep: char)
    requires |p| >= 1 && |q| >= 1
    ensures Join(p + q, sep) == Join(p, sep) + [sep] + Join(q, sep)
    decreases |p|
  {
    assert (p + q)[0] == p[0];
    assert (p + q)[1..] == p[1..] + q;
    if |p| > 1 {
      JoinConcat(p[1..], q, sep);
    }
  }

  /** A separator between two strings separates their pieces. */
  lemma SplitConcat(a: string, sep: char, b: string)
    ensures Split(a + [sep] + b, sep) == Split(a, sep) + Split(b, sep)
  {
    var pa, pb := Split(a, sep), Split(b, sep);
    JoinSplit(a, sep);
    JoinSplit(b, sep);
    JoinConcat(pa, pb, sep);
    SplitPiecesFree(a, sep);
    SplitPiecesFree(b, sep);
    assert forall i :: 0 <= i < |pa + pb| ==> sep !in (pa + pb)[i];
    SplitJoin(pa + pb, sep);
  }

  /** Every character of a joined string is the separator or comes from a piece. */
  lemma {:induction false} JoinMembers(parts: seq<string>, sep: char, c: char)
    requires c in Join(parts, sep)
    ensures c == sep || exists i :: 0 <= i < |parts| && c in parts[i]
    decreases |parts|
  {
    if |parts| > 1 {
      if c != sep && c !in parts[0] {
        JoinMembers(parts[1..], sep, c);
        var i :| 0 <= i < |parts[1..]| && c in parts[1..][i];
        assert c in parts[i + 1];
      }
    }
  }

  /** Every character of a piece occurs in the joined string. */
  lemma {:induction false} JoinContains(parts: seq<string>, sep: char, i: nat, c: char)
    requires i < |parts| && c in parts[i]
    ensures c in Join(parts, sep)
    decreases |parts|
  {
    if |parts| > 1 && i > 0 {
      JoinContains(parts[1..], sep, i - 1, c);
    }
  }

  /** The non-empty strings of `ts`, in order. */
  function DropEmpty(ts: seq<string>): (r: seq<string>)
    ensures |r| <= |ts|
  {
    if ts == [] then []
    else (if ts[0] == [] then [] else [ts[0]]) + DropEmpty(ts[1..])
  }

  lemma {:induction false} DropEmptyMembers(ts: seq<string>, t: string)
    ensures t in DropEmpty(ts) <==> t != [] && t in ts
    decreases |ts|
  {
    if ts != [] {
      DropEmptyMembers(ts[1..], t);
      assert ts == [ts[0]] + ts[1..];
    }
  }

  lemma {:induction false} DropEmptyConcat(a: seq<string>, b: seq<string>)
    ensures DropEmpty(a + b) == DropEmpty(a) + DropEmpty(b)
    decreases |a|
  {
    if a == [] {
      assert a + b == b;
    } else {
      assert (a + b)[0] == a[0];
      assert (a + b)[1..] == a[1..] + b;
      DropEmptyConcat(a[1..], b);
    }
  }

  /** `f` applied to every element, in order. */
  function Each<T, U>(f: T -> U, xs: seq<T>): (r: seq<U>)
    ensures |r| == |xs| && forall i :: 0 <= i < |xs| ==> r[i] == f(xs[i])
  {
    seq(|xs|, i requires 0 <= i < |xs| => f(xs[i]))
  }

  lemma EachConcat<T, U>(f: T -> U, a: seq<T>, b: seq<T>)
    ensures Each(f, a + b) == Each(f, a) + Each(f, b)
  {
    var l, r := Each(f, a + b), Each(f, a) + Each(f, b);
    forall i | 0 <= i < |a| + |b| ensures l[i] == r[i] {
      if i < |a| {
        assert (a + b)[i] == a[i];
      } else {
        assert (a + b)[i] == b[i - |a|];
      }
    }
  }

  /** Every piece stripped. */
  function StripEach(pieces: seq<string>): (r: seq<string>)
    ensures |r| == |pieces|
  {
    Each(Strip, pieces)
  }

  /** Strip every piece and keep the non-empty results, in order:
      `[p.strip() for p in pieces if p.strip()]`. */
  function Clean(pieces: seq<string>): seq<string> {
    DropEmpty(StripEach(pieces))
  }

  /** What `Clean` keeps: exactly the non-empty stripped pieces. */
  lemma CleanMembers(pieces: seq<string>, t: string)
    ensures t in Clean(pieces) <==> t != [] && exists i :: 0 <= i < |pieces| && Strip(pieces[i]) == t
  {
    var st := StripEach(pieces);
    DropEmptyMembers(st, t);
    if t in st {
      var i :| 0 <= i < |st| && st[i] == t;
      assert Strip(pieces[i]) == t;
    }
    if exists i :: 0 <= i < |pieces| && Strip(pieces[i]) == t {
      var i :| 0 <= i < |pieces| && Strip(pieces[i]) == t;
      assert st[i] == t;
    }
  }

  /** Everything `Clean` keeps is non-empty and trimmed. */
  lemma CleanTrimmed(pieces: seq<string>)
    ensures forall i :: 0 <= i < |Clean(pieces)| ==> Clean(pieces)[i] != [] && Trimmed(Clean(pieces)[i])
  {
    var r := Clean(pieces);
    forall i | 0 <= i < |r| ensures r[i] != [] && Trimmed(r[i]) {
      CleanMembers(pieces, r[i]);
    }
  }

  /** Cleaning distributes over concatenation: order is kept. */
  lemma CleanConcat(a: seq<string>, b: seq<string>)
    ensures Clean(a + b) == Clean(a) + Clean(b)
  {
    EachConcat(Strip, a, b);
    DropEmptyConcat(StripEach(a), StripEach(b));
  }

  /** The pieces of a field: `[n.strip() for n in s.split(',') if n.strip()]`.
      Every one is a token. */
  function Tokens(s: string): (r: seq<string>)
    ensures forall i :: 0 <= i < |r| ==> IsToken(r[i])
  {
    var pieces := Split(s, ',');
    var r := Clean(pieces);
    CleanTrimmed(pieces);
    SplitPiecesFree(s, ',');
    forall i | 0 <= i < |r| ensures ',' !in r[i] {
      CleanMembers(pieces, r[i]);
      var j :| 0 <= j < |pieces| && Strip(pieces[j]) == r[i];
      if ',' in r[i] {
        StripSubset(pieces[j], ',');
      }
    }
    r
  }

  /** A token of a field is a non-empty stripped comma-separated piece of it. */
  lemma TokensMembers(s: string, t: string)
    ensures t in Tokens(s) <==> t != [] && exists p :: p in Split(s, ',') && Strip(p) == t
  {
    CleanMembers(Split(s, ','), t);
  }

  /** A field yields no tokens exactly when it holds nothing but whitespace
      and commas. */
  lemma TokensEmptyIff(s: string)
    ensures Tokens(s) == [] <==> forall i :: 0 <= i < |s| ==> IsSpace(s[i]) || s[i] == ','
  {
    var pieces := Split(s, ',');
    JoinSplit(s, ',');
    SplitPiecesFree(s, ',');
    if forall i :: 0 <= i < |s| ==> IsSpace(s[i]) || s[i] == ',' {
      forall j | 0 <= j < |pieces| ensures Strip(pieces[j]) == [] {
        forall k | 0 <= k < |pieces[j]| ensures IsSpace(pieces[j][k]) {
          var c := pieces[j][k];
          JoinContains(pieces, ',', j, c);
          var i :| 0 <= i < |s| && s[i] == c;
        }
        StripEmptyIff(pieces[j]);
      }
      if Tokens(s) != [] {
        CleanMembers(pieces, Tokens(s)[0]);
      }
    }
    if Tokens(s) == [] {
      forall i | 0 <= i < |s| ensures IsSpace(s[i]) || s[i] == ',' {
        var c := s[i];
        JoinMembers(pieces, ',', c);
        if c != ',' {
          var j :| 0 <= j < |pieces| && c in pieces[j];
          StripEmptyIff(pieces[j]);
          CleanMembers(pieces, Strip(pieces[j]));
        }
      }
    }
  }

  /** Tokens of two fields joined by a comma are the tokens of the first
      followed by the tokens of the second: token order is input order. */
  lemma TokensConcat(a: string, b: string)
    ensures Tokens(a + [','] + b) == Tokens(a) + Tokens(b)
  {
    SplitConcat(a, ',', b);
    CleanConcat(Split(a, ','), Split(b, ','));
  }
}
