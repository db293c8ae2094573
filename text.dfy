/** The string operations the scraper chains together, each written to do what the
    Python built-in or the fixed regular expression it stands for does. */
module Text {
  import opened Seqs

  /** Python's whitespace: `str.isspace`, which is also what `\s` in a `str` pattern,
      `str.strip()` and `str.split()` use. */
  predicate IsSpace(c: char)
  {
    var n := c as int;
    if n <= 32 then (9 <= n <= 13) || 28 <= n
    else if n < 0x85 then false
    else n == 0x85 || n == 0xA0 || n == 0x1680 || (0x2000 <= n <= 0x200A) || n == 0x2028
         || n == 0x2029 || n == 0x202F || n == 0x205F || n == 0x3000
  }

  predicate AllSpace(s: string)
  {
    forall i :: 0 <= i < |s| ==> IsSpace(s[i])
  }

  predicate NoSpace(s: string)
  {
    forall i :: 0 <= i < |s| ==> !IsSpace(s[i])
  }

  /** No leading and no trailing whitespace. */
  predicate Trimmed(s: string)
  {
    s == [] || (!IsSpace(s[0]) && !IsSpace(s[|s| - 1]))
  }

  /** Every whitespace character is a plain space and none is followed by another. */
  predicate Collapsed(s: string)
  {
    forall i :: 0 <= i < |s| && IsSpace(s[i]) ==> s[i] == ' ' && (i + 1 == |s| || !IsSpace(s[i + 1]))
  }

  /** The form `re.sub(r"\s+", " ", s).strip()` produces. */
  predicate IsNormal(s: string)
  {
    Trimmed(s) && Collapsed(s)
  }

  // ---------------------------------------------------------------- strip

  /** `s.lstrip()` */
  function TrimLeft(s: string): (r: string)
    ensures r == [] || !IsSpace(r[0])
    ensures |r| <= |s| && r == s[|s| - |r|..]
  {
    if s != [] && IsSpace(s[0]) then TrimLeft(s[1..]) else s
  }

  /** What `lstrip` removes is whitespace. */
  lemma {:induction false} TrimLeftEdge(s: string)
    ensures forall i :: 0 <= i < |s| - |TrimLeft(s)| ==> IsSpace(s[i])
    decreases |s|
  {
    if s != [] && IsSpace(s[0]) {
      TrimLeftEdge(s[1..]);
      forall i | 1 <= i < |s| - |TrimLeft(s)| ensures IsSpace(s[i]) {
        assert s[i] == s[1..][i - 1];
      }
    }
  }

  /** `s.rstrip()` */
  function TrimRight(s: string): (r: string)
    ensures r == [] || !IsSpace(r[|r| - 1])
    ensures |r| <= |s| && r == s[..|r|]
  {
    if s != [] && IsSpace(s[|s| - 1]) then TrimRight(s[..|s| - 1]) else s
  }

  /** What `rstrip` removes is whitespace. */
  lemma {:induction false} TrimRightEdge(s: string)
    ensures forall i :: |TrimRight(s)| <= i < |s| ==> IsSpace(s[i])
    decreases |s|
  {
    if s != [] && IsSpace(s[|s| - 1]) {
      TrimRightEdge(s[..|s| - 1]);
      forall i | |TrimRight(s)| <= i < |s| - 1 ensures IsSpace(s[i]) {
        assert s[i] == s[..|s| - 1][i];
      }
    }
  }

  /** `s.strip()`: `lstrip` followed by `rstrip`. */
  function Strip(s: string): (r: string)
    ensures Trimmed(r)
    ensures |r| <= |TrimLeft(s)| && r == TrimLeft(s)[..|r|]
  {
    var t := TrimLeft(s);
    var r := TrimRight(t);
    TrimmedOf(t, r);
    r
  }

  lemma TrimmedOf(t: string, r: string)
    requires t == [] || !IsSpace(t[0])
    requires r == [] || !IsSpace(r[|r| - 1])
    requires |r| <= |t| && r == t[..|r|]
    ensures Trimmed(r)
  {
  }

  /** `strip` keeps the slice of `s` that starts at offset `a`. */
  lemma StripSlice(s: string) returns (a: nat)
    ensures a + |Strip(s)| <= |s| && Strip(s) == s[a..a + |Strip(s)|]
  {
    var t := TrimLeft(s);
    a := |s| - |t|;
    PrefixOfSuffix(s, a, t, Strip(s));
  }

  /** What `strip` removes on either side of that slice is whitespace. */
  lemma StripEdges(s: string) returns (a: nat)
    ensures a + |Strip(s)| <= |s| && Strip(s) == s[a..a + |Strip(s)|]
    ensures forall i :: 0 <= i < a ==> IsSpace(s[i])
    ensures forall i :: a + |Strip(s)| <= i < |s| ==> IsSpace(s[i])
  {
    var t := TrimLeft(s);
    var r := Strip(s);
    a := |s| - |t|;
    TrimLeftEdge(s);
    TrimRightEdge(t);
    assert r == TrimRight(t);
    EdgesCombine(s, a, t, r);
  }

  lemma EdgesCombine(s: string, a: nat, t: string, r: string)
    requires a + |t| == |s| && t == s[a..] && |r| <= |t| && r == t[..|r|]
    requires forall i :: |r| <= i < |t| ==> IsSpace(t[i])
    ensures a + |r| <= |s| && r == s[a..a + |r|]
    ensures forall i :: a + |r| <= i < |s| ==> IsSpace(s[i])
  {
    PrefixOfSuffix(s, a, t, r);
    forall i | a + |r| <= i < |s| ensures IsSpace(s[i]) {
      assert s[i] == t[i - a];
    }
  }

  lemma PrefixOfSuffix(s: string, a: nat, t: string, r: string)
    requires a <= |s| && t == s[a..] && |r| <= |t| && r == t[..|r|]
    ensures a + |r| <= |s| && r == s[a..a + |r|]
  {
  }

  lemma StripEmptyIffAllSpace(s: string)
    ensures Strip(s) == [] <==> AllSpace(s)
  {
    var a := StripEdges(s);
    if Strip(s) != [] {
      assert s[a] == Strip(s)[0];
    }
  }

  lemma StripTrimmed(s: string)
    requires Trimmed(s)
    ensures Strip(s) == s
  {
    if s != [] {
      assert TrimLeft(s) == s;
      assert TrimRight(s) == s;
    }
  }

  // ---------------------------------------------------------------- slices keep properties

  lemma CollapsedSlice(s: string, a: nat, b: nat)
    requires Collapsed(s) && a <= b <= |s|
    ensures Collapsed(s[a..b])
  {
    var t := s[a..b];
    forall i | 0 <= i < |t| && IsSpace(t[i]) ensures t[i] == ' ' && (i + 1 == |t| || !IsSpace(t[i + 1])) {
      assert t[i] == s[a + i];
      if i + 1 < |t| {
        assert t[i + 1] == s[a + i + 1];
      }
    }
  }

  lemma CollapsedStrip(s: string)
    requires Collapsed(s)
    ensures IsNormal(Strip(s))
  {
    var r := Strip(s);
    var a := StripSlice(s);
    CollapsedSliceIs(s, a, a + |r|, r);
  }

  lemma CollapsedSliceIs(s: string, a: nat, b: nat, t: string)
    requires Collapsed(s) && a <= b <= |s| && t == s[a..b]
    ensures Collapsed(t)
  {
    CollapsedSlice(s, a, b);
  }

  // ---------------------------------------------------------------- re.sub(r"\s+", " ", s)

  /** Rewrites `s` with every whitespace character that follows a non-space (or, when
      `afterSpace` is false, the start) turned into one space and every further one dropped. */
  function CollapseFrom(s: string, afterSpace: bool): (r: string)
    ensures Collapsed(r)
    ensures afterSpace ==> r == [] || !IsSpace(r[0])
    ensures AllSpace(s) ==> r == (if afterSpace || s == [] then [] else [' '])
    ensures !AllSpace(s) ==> !AllSpace(r)
    decreases |s|
  {
    if s == [] then []
    else
      var rest := CollapseFrom(s[1..], IsSpace(s[0]));
      AllSpaceCons(s);
      if IsSpace(s[0]) then
        if afterSpace then rest
        else ConsCollapsed(' ', rest); [' '] + rest
      else ConsCollapsed(s[0], rest); [s[0]] + rest
  }

  lemma AllSpaceCons(s: string)
    requires s != []
    ensures AllSpace(s) <==> IsSpace(s[0]) && AllSpace(s[1..])
  {
    assert forall i :: 0 < i < |s| ==> s[i] == s[1..][i - 1];
  }

  /** One character in front of a collapsed text keeps it collapsed when that character is
      a plain space before a non-space, or not whitespace at all. */
  lemma ConsCollapsed(x: char, rest: string)
    requires Collapsed(rest)
    requires IsSpace(x) ==> x == ' ' && (rest == [] || !IsSpace(rest[0]))
    ensures Collapsed([x] + rest) && ([x] + rest)[0] == x
    ensures !AllSpace(rest) || !IsSpace(x) ==> !AllSpace([x] + rest)
  {
    var r := [x] + rest;
    assert forall i :: 0 < i < |r| ==> r[i] == rest[i - 1];
    if !AllSpace(rest) {
      var i :| 0 <= i < |rest| && !IsSpace(rest[i]);
      assert r[i + 1] == rest[i];
    }
  }

  /** `re.sub(r"\s+", " ", s)`: every maximal run of whitespace becomes one space. */
  function CollapseSpaces(s: string): (r: string)
    ensures Collapsed(r)
    ensures AllSpace(r) <==> AllSpace(s)
  {
    CollapseFrom(s, false)
  }

  /** `re.sub(r"\s+", " ", s).strip()`, used for the committee name and the author. */
  function Normalize(s: string): (r: string)
    ensures IsNormal(r)
    ensures r == [] <==> AllSpace(s)
  {
    var c := CollapseSpaces(s);
    CollapsedStrip(c);
    StripEmptyIffAllSpace(c);
    Strip(c)
  }

  lemma {:induction false} CollapseFromFixed(s: string, afterSpace: bool)
    requires Collapsed(s) && (afterSpace ==> s == [] || !IsSpace(s[0]))
    ensures CollapseFrom(s, afterSpace) == s
    decreases |s|
  {
    if s != [] {
      var t := s[1..];
      CollapsedSlice(s, 1, |s|);
      assert IsSpace(s[0]) ==> s[0] == ' ' && (t == [] || !IsSpace(t[0]));
      CollapseFromFixed(t, IsSpace(s[0]));
      assert s == [s[0]] + t;
    }
  }

  /** Text already in normal form is left alone, so normalising twice changes nothing. */
  lemma NormalizeFixed(s: string)
    requires IsNormal(s)
    ensures Normalize(s) == s
  {
    CollapseFromFixed(s, false);
    StripTrimmed(s);
  }

  /** Collapsing only keeps characters or writes spaces: it brings in no other character. */
  lemma {:induction false} CollapseFromKeepsOut(s: string, afterSpace: bool, c: char)
    requires c !in s && !IsSpace(c)
    ensures c !in CollapseFrom(s, afterSpace)
    decreases |s|
  {
    if s != [] {
      assert c !in s[1..] by {
        assert forall x :: x in s[1..] ==> x in s;
      }
      CollapseFromKeepsOut(s[1..], IsSpace(s[0]), c);
    }
  }

  lemma NotInSlice(t: string, a: nat, b: nat, r: string, c: char)
    requires a <= b <= |t| && r == t[a..b] && c !in t
    ensures c !in r
  {
    assert forall x :: x in r ==> x in t;
  }

  lemma StripKeepsOut(t: string, c: char)
    requires c !in t
    ensures c !in Strip(t)
  {
    var r := Strip(t);
    var a := StripSlice(t);
    NotInSlice(t, a, a + |r|, r, c);
  }

  /** Normalising only keeps characters or writes spaces: a character other than
      whitespace that `s` lacks, the result lacks too. */
  lemma NormalizeKeepsOut(s: string, c: char)
    requires c !in s && !IsSpace(c)
    ensures c !in Normalize(s)
  {
    var t := CollapseSpaces(s);
    assert t == CollapseFrom(s, false);
    CollapseFromKeepsOut(s, false, c);
    StripKeepsOut(t, c);
    assert Normalize(s) == Strip(t);
  }

  lemma NormalizeIdempotent(s: string)
    ensures Normalize(Normalize(s)) == Normalize(s)
  {
    NormalizeFixed(Normalize(s));
  }

  // ---------------------------------------------------------------- str.split()

  /** Length of the leading run of non-whitespace characters. */
  function WordLength(s: string): (n: nat)
    ensures n <= |s| && NoSpace(s[..n]) && (n == |s| || IsSpace(s[n]))
  {
    if s == [] || IsSpace(s[0]) then 0
    else
      var n := 1 + WordLength(s[1..]);
      assert s[..n] == [s[0]] + s[1..][..n - 1];
      n
  }

  /** `s.split()`: the maximal runs of non-whitespace characters, in order. */
  function Tokens(s: string): (ts: seq<string>)
    ensures forall i :: 0 <= i < |ts| ==> ts[i] != [] && NoSpace(ts[i])
    ensures ts == [] <==> AllSpace(s)
    decreases |s|
  {
    if s == [] then []
    else if IsSpace(s[0]) then
      assert AllSpace(s) <==> AllSpace(s[1..]) by {
        assert forall i :: 0 < i < |s| ==> s[i] == s[1..][i - 1];
      }
      Tokens(s[1..])
    else
      var n := WordLength(s);
      [s[..n]] + Tokens(s[n..])
  }

  // ---------------------------------------------------------------- what the words are

  /** The characters of `s` that are not whitespace, in order. */
  function Visible(s: string): string
  {
    if s == [] then [] else (if IsSpace(s[0]) then [] else [s[0]]) + Visible(s[1..])
  }

  /** The words laid end to end. */
  function Concat(ws: seq<string>): string
  {
    if ws == [] then [] else ws[0] + Concat(ws[1..])
  }

  lemma NoSpaceTail(w: string)
    requires w != [] && NoSpace(w)
    ensures NoSpace(w[1..])
  {
    assert forall i :: 0 <= i < |w| - 1 ==> w[1..][i] == w[i + 1];
  }

  lemma AllSpaceTail(s: string)
    requires s != [] && AllSpace(s)
    ensures AllSpace(s[1..])
  {
    assert forall i :: 0 <= i < |s| - 1 ==> s[1..][i] == s[i + 1];
  }

  lemma {:induction false} VisibleAppend(a: string, b: string)
    ensures Visible(a + b) == Visible(a) + Visible(b)
    decreases |a|
  {
    if a == [] {
      assert a + b == b;
    } else {
      assert (a + b)[1..] == a[1..] + b;
      VisibleAppend(a[1..], b);
    }
  }

  lemma {:induction false} VisibleWord(w: string)
    requires NoSpace(w)
    ensures Visible(w) == w
    decreases |w|
  {
    if w != [] {
      NoSpaceTail(w);
      VisibleWord(w[1..]);
      assert w == [w[0]] + w[1..];
    }
  }

  /** `str.split()` keeps every character that is not whitespace, in order, and no other:
      the words laid end to end are the text without its whitespace. */
  lemma {:induction false} TokensVisible(s: string)
    ensures Concat(Tokens(s)) == Visible(s)
    decreases |s|
  {
    if s != [] {
      if IsSpace(s[0]) {
        TokensVisible(s[1..]);
      } else {
        var n := WordLength(s);
        var ts := Tokens(s);
        assert ts == [s[..n]] + Tokens(s[n..]);
        assert ts[1..] == Tokens(s[n..]);
        TokensVisible(s[n..]);
        VisibleWord(s[..n]);
        assert s[..n] + s[n..] == s;
        VisibleAppend(s[..n], s[n..]);
      }
    }
  }

  lemma {:induction false} WordLengthOf(w: string, rest: string)
    requires NoSpace(w) && (rest == [] || IsSpace(rest[0]))
    ensures WordLength(w + rest) == |w|
    decreases |w|
  {
    if w == [] {
      assert w + rest == rest;
    } else {
      assert (w + rest)[1..] == w[1..] + rest;
      NoSpaceTail(w);
      WordLengthOf(w[1..], rest);
    }
  }

  /** `str.split()` takes the words one at a time: after any leading whitespace, the first
      word is the whole run of characters up to the next whitespace or the end. */
  lemma {:induction false} TokensLeading(sep: string, w: string, rest: string)
    requires AllSpace(sep) && w != [] && NoSpace(w) && (rest == [] || IsSpace(rest[0]))
    ensures Tokens(sep + w + rest) == [w] + Tokens(rest)
    decreases |sep|
  {
    var s := sep + w + rest;
    if sep == [] {
      assert s == w + rest;
      WordLengthOf(w, rest);
      assert s[..|w|] == w && s[|w|..] == rest;
    } else {
      assert s[0] == sep[0];
      assert s[1..] == sep[1..] + w + rest;
      AllSpaceTail(sep);
      TokensLeading(sep[1..], w, rest);
    }
  }

  /** Leading whitespace yields no word. */
  lemma {:induction false} TokensLeadingSpace(sep: string, x: string)
    requires AllSpace(sep)
    ensures Tokens(sep + x) == Tokens(x)
    decreases |sep|
  {
    if sep == [] {
      assert sep + x == x;
    } else {
      assert (sep + x)[0] == sep[0];
      assert (sep + x)[1..] == sep[1..] + x;
      AllSpaceTail(sep);
      TokensLeadingSpace(sep[1..], x);
    }
  }

  /** Whitespace between two texts separates their words: the words of the whole are the
      words of the left part followed by those of the right part. */
  lemma {:induction false} TokensAround(a: string, sep: string, b: string)
    requires AllSpace(sep) && sep != []
    ensures Tokens(a + sep + b) == Tokens(a) + Tokens(b)
    decreases |a|
  {
    if a == [] {
      assert a + sep + b == sep + b;
      TokensLeadingSpace(sep, b);
      assert Tokens(a) + Tokens(b) == Tokens(b);
    } else if IsSpace(a[0]) {
      CatHead(a, sep, b);
      TokensSpaceStep(a);
      TokensSpaceStep(a + sep + b);
      TokensAround(a[1..], sep, b);
    } else {
      var w, tail := TokensWordStep(a);
      var x := SpaceAfterWord(w, tail, sep, b);
      TokensWord(w, x);
      TokensAround(tail, sep, b);
      ConsAssoc(w, Tokens(tail), Tokens(b));
    }
  }

  lemma ConsAssoc<T>(h: T, x: seq<T>, y: seq<T>)
    ensures ([h] + x) + y == [h] + (x + y)
  {
  }

  lemma CatHead(a: string, sep: string, b: string)
    requires a != []
    ensures (a + sep + b)[0] == a[0] && (a + sep + b)[1..] == a[1..] + sep + b
  {
  }

  /** After a word, the text up to the separator starts with whitespace. */
  lemma SpaceAfterWord(w: string, tail: string, sep: string, b: string) returns (x: string)
    requires (tail == [] || IsSpace(tail[0])) && sep != [] && AllSpace(sep)
    ensures x == tail + sep + b && (w + tail) + sep + b == w + x && IsSpace(x[0])
  {
    x := tail + sep + b;
    assert x[0] == if tail == [] then sep[0] else tail[0];
  }

  /** A word followed by nothing or by whitespace is the first word. */
  lemma TokensWord(w: string, rest: string)
    requires w != [] && NoSpace(w) && (rest == [] || IsSpace(rest[0]))
    ensures Tokens(w + rest) == [w] + Tokens(rest)
  {
    assert [] + w + rest == w + rest;
    TokensLeading([], w, rest);
  }

  /** Splitting words joined by single spaces gives the words back. */
  lemma {:induction false} TokensOfJoin(ws: seq<string>)
    requires forall i :: 0 <= i < |ws| ==> ws[i] != [] && NoSpace(ws[i])
    ensures Tokens(Join(ws, " ")) == ws
    decreases |ws|
  {
    if |ws| == 1 {
      WholeWord(ws[0]);
    } else if |ws| > 1 {
      var tail := Join(ws[1..], " ");
      TokensOfJoin(ws[1..]);
      SpacedWords(ws[0], tail);
      assert ws == [ws[0]] + ws[1..];
    }
  }

  /** `str.strip()` keeps every word. */
  lemma TokensStrip(t: string)
    ensures Tokens(Strip(t)) == Tokens(t)
  {
    var a := StripEdges(t);
    var r := Strip(t);
    var pre, post := StripParts(t, a, r);
    TokensLeadingSpace(pre, r + post);
    if post != [] {
      assert r + post == r + post + [];
      TokensAround(r, post, []);
    } else {
      assert r + post == r;
    }
  }

  /** The text `strip` cuts out at `a`, with the whitespace on either side of it. */
  lemma StripParts(t: string, a: nat, r: string) returns (pre: string, post: string)
    requires a + |r| <= |t| && r == t[a..a + |r|]
    requires forall i :: 0 <= i < a ==> IsSpace(t[i])
    requires forall i :: a + |r| <= i < |t| ==> IsSpace(t[i])
    ensures t == pre + (r + post) && AllSpace(pre) && AllSpace(post)
  {
    pre := t[..a];
    post := t[a + |r|..];
    assert forall i :: 0 <= i < |pre| ==> pre[i] == t[i];
    assert forall i :: 0 <= i < |post| ==> post[i] == t[a + |r| + i];
    assert t == pre + (r + post);
  }

  lemma HeadSplit(w: string, x: string)
    requires w != []
    ensures w + x == [w[0]] + (w[1..] + x)
    ensures |w| == 1 ==> w[1..] + x == x
  {
  }

  /** A character that is not whitespace is kept as it is. */
  lemma CollapseLetter(c: char, rest: string, afterSpace: bool) returns (tail: string)
    requires !IsSpace(c)
    ensures tail == CollapseFrom(rest, false)
    ensures CollapseFrom([c] + rest, afterSpace) == [c] + tail
  {
    tail := CollapseFrom(rest, false);
    assert ([c] + rest)[1..] == rest;
  }

  lemma {:induction false} CollapseWord(w: string, rest: string, afterSpace: bool)
    requires w != [] && NoSpace(w)
    ensures CollapseFrom(w + rest, afterSpace) == w + CollapseFrom(rest, false)
    decreases |w|
  {
    HeadSplit(w, rest);
    var tail := CollapseLetter(w[0], w[1..] + rest, afterSpace);
    if |w| > 1 {
      NoSpaceTail(w);
      CollapseWord(w[1..], rest, false);
    }
    HeadSplit(w, CollapseFrom(rest, false));
  }

  /** `re.sub(r"\s+", " ", s)` keeps every word of `s`, in order: only the whitespace
      between them changes. */
  lemma {:induction false} TokensCollapse(s: string, afterSpace: bool)
    ensures Tokens(CollapseFrom(s, afterSpace)) == Tokens(s)
    decreases |s|
  {
    if s != [] {
      if IsSpace(s[0]) {
        var rest := CollapseSpaceStep(s, afterSpace);
        TokensSpaceStep(s);
        TokensCollapse(s[1..], true);
        if !afterSpace {
          var sep := OneSpace();
          TokensLeadingSpace(sep, rest);
        }
      } else {
        var w, tail := TokensWordStep(s);
        CollapseWord(w, tail, afterSpace);
        var c := CollapseSpaceHead(tail);
        TokensCollapse(tail, false);
        TokensWord(w, c);
      }
    }
  }

  lemma OneSpace() returns (sep: string)
    ensures sep == [' '] && AllSpace(sep)
  {
    sep := [' '];
    assert IsSpace(sep[0]);
  }

  /** A whitespace character becomes one space, or nothing right after another. */
  lemma CollapseSpaceStep(s: string, afterSpace: bool) returns (rest: string)
    requires s != [] && IsSpace(s[0])
    ensures rest == CollapseFrom(s[1..], true)
    ensures CollapseFrom(s, afterSpace) == if afterSpace then rest else [' '] + rest
  {
    rest := CollapseFrom(s[1..], true);
  }

  /** Collapsing a text that starts with whitespace gives one that does too. */
  lemma CollapseSpaceHead(tail: string) returns (c: string)
    requires tail == [] || IsSpace(tail[0])
    ensures c == CollapseFrom(tail, false) && (c == [] || IsSpace(c[0]))
  {
    c := CollapseFrom(tail, false);
    if tail != [] {
      var rest := CollapseSpaceStep(tail, false);
      assert IsSpace(' ');
    }
  }

  lemma TokensSpaceStep(s: string)
    requires s != [] && IsSpace(s[0])
    ensures Tokens(s) == Tokens(s[1..])
  {
  }

  /** A text that starts with a word splits into that word and what follows it. */
  lemma TokensWordStep(s: string) returns (w: string, tail: string)
    requires s != [] && !IsSpace(s[0])
    ensures s == w + tail && w != [] && NoSpace(w) && (tail == [] || IsSpace(tail[0]))
    ensures Tokens(s) == [w] + Tokens(tail)
  {
    var n := WordLength(s);
    w := s[..n];
    tail := s[n..];
    assert s == w + tail;
  }

  /** A normalised text is its words joined by single spaces. */
  lemma {:induction false} NormalIsJoin(r: string)
    requires IsNormal(r)
    ensures Join(Tokens(r), " ") == r
    decreases |r|
  {
    if r != [] {
      var w, rest := NormalHead(r);
      if rest != [] {
        NormalIsJoin(rest);
        JoinCons(w, Tokens(rest));
      }
    }
  }

  /** The first word of a normalised text, and the normalised text after it and its one
      space, if any. */
  lemma NormalHead(r: string) returns (w: string, rest: string)
    requires IsNormal(r) && r != []
    ensures rest == [] ==> Tokens(r) == [r] && w == r
    ensures rest != [] ==> IsNormal(rest) && |rest| < |r| && r == w + " " + rest
                           && Tokens(r) == [w] + Tokens(rest)
  {
    var tail;
    w, tail := TokensWordStep(r);
    if tail == [] {
      rest := [];
      assert r == w + tail == w;
      assert Tokens(r) == [w] + Tokens(tail) == [w] + [] == [w];
    } else {
      rest := NormalRest(r, w, tail);
      var sep := OneSpace();
      TokensLeadingSpace(sep, rest);
      assert r == w + (sep + rest) == w + " " + rest;
    }
  }

  lemma WholeWord(w: string)
    requires w != [] && NoSpace(w)
    ensures Tokens(w) == [w]
  {
    assert w + [] == w;
    TokensWord(w, []);
  }

  lemma SpacedWords(w: string, rest: string)
    requires w != [] && NoSpace(w)
    ensures Tokens(w + " " + rest) == [w] + Tokens(rest)
  {
    var sep := OneSpace();
    assert w + " " + rest == w + (sep + rest);
    TokensWord(w, sep + rest);
    TokensLeadingSpace(sep, rest);
  }

  /** In a normalised text, the whitespace after a word is one space before more text. */
  lemma NormalRest(r: string, w: string, tail: string) returns (rest: string)
    requires IsNormal(r) && r == w + tail && tail != [] && IsSpace(tail[0])
    ensures tail == [' '] + rest && rest != [] && IsNormal(rest) && |rest| < |r|
  {
    var n := |w|;
    assert r[n] == tail[0];
    assert n + 1 < |r|;
    rest := tail[1..];
    assert rest == r[n + 1..];
    CollapsedSlice(r, n + 1, |r|);
    assert rest[0] == r[n + 1] && rest[|rest| - 1] == r[|r| - 1];
    assert tail == [tail[0]] + rest;
  }

  lemma JoinCons(w: string, ts: seq<string>)
    requires ts != []
    ensures Join([w] + ts, " ") == w + " " + Join(ts, " ")
  {
    assert ([w] + ts)[1..] == ts;
  }

  /** `re.sub(r"\s+", " ", s).strip()` is the words of `s`, in order, joined by single
      spaces. */
  lemma NormalizeIsJoin(s: string)
    ensures Normalize(s) == Join(Tokens(s), " ")
    ensures Tokens(Normalize(s)) == Tokens(s)
  {
    var c := CollapseSpaces(s);
    TokensCollapse(s, false);
    TokensStrip(c);
    NormalIsJoin(Normalize(s));
  }

  // ---------------------------------------------------------------- substrings

  predicate StartsWith(s: string, p: string)
  {
    |p| <= |s| && s[..|p|] == p
  }

  predicate OccursAt(s: string, x: string, i: int)
  {
    0 <= i && i + |x| <= |s| && s[i..i + |x|] == x
  }

  /** Python's `x in s` for strings. */
  predicate Contains(s: string, x: string)
  {
    exists i :: 0 <= i <= |s| && OccursAt(s, x, i)
  }

  lemma ContainsSlice(s: string, a: nat, b: nat, x: string)
    requires a <= b <= |s| && Contains(s[a..b], x)
    ensures Contains(s, x)
  {
    var i :| 0 <= i <= b - a && OccursAt(s[a..b], x, i);
    var u := s[a..b][i..i + |x|];
    var v := s[a + i..a + i + |x|];
    assert forall k :: 0 <= k < |u| ==> u[k] == v[k];
    assert u == v;
    assert OccursAt(s, x, a + i);
  }

  lemma ContainsStrip(s: string, x: string)
    requires Contains(Strip(s), x)
    ensures Contains(s, x)
  {
    var a := StripSlice(s);
    ContainsSlice(s, a, a + |Strip(s)|, x);
  }

  /** A window of `a + b` that starts inside `b` is a window of `b`. */
  lemma OccursInRight(a: string, b: string, x: string, i: int)
    requires OccursAt(a + b, x, i) && i >= |a|
    ensures OccursAt(b, x, i - |a|)
  {
    assert (a + b)[i..i + |x|] == b[i - |a|..i - |a| + |x|];
  }

  /** A non-empty word without whitespace cannot start inside a run of whitespace. */
  lemma NotOccursInSpaces(a: string, b: string, x: string, i: int)
    requires AllSpace(a) && x != [] && NoSpace(x) && 0 <= i < |a|
    ensures !OccursAt(a + b, x, i)
  {
    assert (a + b)[i] == a[i];
  }

  // ---------------------------------------------------------------- str.replace

  /** `s.replace(pat, rep)`: occurrences of `pat` found from left to right, without
      overlap, are each replaced by `rep`. */
  function ReplaceAll(s: string, pat: string, rep: string): (r: string)
    requires pat != []
    ensures s != [] && rep != [] ==> r != [] && (r[0] == s[0] || r[0] == rep[0])
    decreases |s|
  {
    if |s| < |pat| then s
    else if s[..|pat|] == pat then rep + ReplaceAll(s[|pat|..], pat, rep)
    else [s[0]] + ReplaceAll(s[1..], pat, rep)
  }

  /** Without an occurrence of the pattern there is nothing to replace. */
  lemma {:induction false} ReplaceAllAbsent(s: string, pat: string, rep: string)
    requires pat != [] && !Contains(s, pat)
    ensures ReplaceAll(s, pat, rep) == s
    decreases |s|
  {
    if |s| >= |pat| {
      assert !OccursAt(s, pat, 0);
      if !Contains(s[1..], pat) {
        ReplaceAllAbsent(s[1..], pat, rep);
      } else {
        assert s[1..|s|] == s[1..];
        ContainsSlice(s, 1, |s|, pat);
      }
    }
  }

  /** The first occurrence of `pat`, found left to right, is replaced by `rep`, the text
      before it is kept, and the replacing goes on after it. With `ReplaceAllAbsent` this
      determines `str.replace` on every text. */
  lemma {:induction false} ReplaceAllFirst(a: string, pat: string, b: string, rep: string)
    requires pat != [] && !Contains(a + pat[..|pat| - 1], pat)
    ensures ReplaceAll(a + pat + b, pat, rep) == a + rep + ReplaceAll(b, pat, rep)
    decreases |a|
  {
    if a == [] {
      ReplaceAllHit(pat, b, rep);
      assert a + pat + b == pat + b;
    } else {
      var s := NoMatchAtFront(a, pat, b);
      ReplaceAllMiss(s, pat, rep);
      ReplaceAllFirst(a[1..], pat, b, rep);
      ConsCat3(a, rep, ReplaceAll(b, pat, rep));
    }
  }

  lemma ReplaceAllHit(pat: string, b: string, rep: string)
    requires pat != []
    ensures ReplaceAll(pat + b, pat, rep) == rep + ReplaceAll(b, pat, rep)
  {
    var s := pat + b;
    assert s[..|pat|] == pat && s[|pat|..] == b;
  }

  lemma ReplaceAllMiss(s: string, pat: string, rep: string)
    requires pat != [] && |s| >= |pat| && s[..|pat|] != pat
    ensures ReplaceAll(s, pat, rep) == [s[0]] + ReplaceAll(s[1..], pat, rep)
  {
  }

  /** When the first occurrence is not at the start, none is at the start, and the first
      one after the start is the same occurrence. */
  lemma NoMatchAtFront(a: string, pat: string, b: string) returns (s: string)
    requires a != [] && pat != [] && !Contains(a + pat[..|pat| - 1], pat)
    ensures s == a + pat + b && |s| >= |pat| && s[..|pat|] != pat && s[0] == a[0]
    ensures s[1..] == a[1..] + pat + b && !Contains(a[1..] + pat[..|pat| - 1], pat)
  {
    s := a + pat + b;
    var front := a + pat[..|pat| - 1];
    assert s[..|pat|] == front[..|pat|];
    assert !OccursAt(front, pat, 0);
    assert s[1..] == a[1..] + pat + b;
    assert front[1..|front|] == a[1..] + pat[..|pat| - 1];
    if Contains(a[1..] + pat[..|pat| - 1], pat) {
      ContainsSlice(front, 1, |front|, pat);
    }
  }

  lemma ConsCat3(a: string, x: string, y: string)
    requires a != []
    ensures [a[0]] + (a[1..] + x + y) == a + x + y
  {
    assert a == [a[0]] + a[1..];
  }


  lemma {:induction false} ReplaceAllKeepsCollapsed(s: string, pat: string, rep: string)
    requires pat != [] && rep != [] && Collapsed(s) && Collapsed(rep)
    requires !IsSpace(rep[0]) && !IsSpace(rep[|rep| - 1])
    ensures Collapsed(ReplaceAll(s, pat, rep))
    decreases |s|
  {
    var r := ReplaceAll(s, pat, rep);
    if |s| >= |pat| {
      if s[..|pat|] == pat {
        var t := s[|pat|..];
        CollapsedSlice(s, |pat|, |s|);
        ReplaceAllKeepsCollapsed(t, pat, rep);
        var rest := ReplaceAll(t, pat, rep);
        forall i | 0 <= i < |r| && IsSpace(r[i]) ensures r[i] == ' ' && (i + 1 == |r| || !IsSpace(r[i + 1])) {
          if i < |rep| {
            assert r[i] == rep[i];
            if i + 1 < |rep| {
              assert r[i + 1] == rep[i + 1];
            }
          } else {
            assert r[i] == rest[i - |rep|];
            if i + 1 < |r| {
              assert r[i + 1] == rest[i + 1 - |rep|];
            }
          }
        }
      } else {
        var t := s[1..];
        CollapsedSlice(s, 1, |s|);
        ReplaceAllKeepsCollapsed(t, pat, rep);
        var rest := ReplaceAll(t, pat, rep);
        forall i | 0 <= i < |r| && IsSpace(r[i]) ensures r[i] == ' ' && (i + 1 == |r| || !IsSpace(r[i + 1])) {
          if i == 0 {
            assert r[0] == s[0];
            if 1 < |r| {
              assert r[1] == rest[0];
              assert rest[0] == t[0] || rest[0] == rep[0];
            }
          } else {
            assert r[i] == rest[i - 1];
            if i + 1 < |r| {
              assert r[i + 1] == rest[i];
            }
          }
        }
      }
    }
  }

  /** A prefix of the replaced text either is the same prefix of the original or
      holds one of the (whitespace) replacement characters. */
  lemma {:induction false} ReplacePrefix(s: string, y: string, rep: string, n: nat)
    requires y != [] && rep != [] && AllSpace(rep)
    requires n <= |ReplaceAll(s, y, rep)|
    ensures (n <= |s| && ReplaceAll(s, y, rep)[..n] == s[..n]) || !NoSpace(ReplaceAll(s, y, rep)[..n])
    decreases |s|
  {
    var r := ReplaceAll(s, y, rep);
    if |s| < |y| {
    } else if s[..|y|] == y {
      if n > 0 {
        assert r[..n][0] == rep[0];
      }
    } else if n > 0 {
      var rest := ReplaceAll(s[1..], y, rep);
      ReplacePrefix(s[1..], y, rep, n - 1);
      assert r[..n] == [s[0]] + rest[..n - 1];
      if !NoSpace(rest[..n - 1]) {
        var k :| 0 <= k < n - 1 && IsSpace(rest[..n - 1][k]);
        assert r[..n][k + 1] == rest[..n - 1][k];
      } else {
        assert s[..n] == [s[0]] + s[1..][..n - 1];
      }
    }
  }

  /** Replacing a word without whitespace by whitespace leaves no occurrence of it. */
  lemma {:induction false} ReplaceAllRemoves(s: string, x: string, rep: string)
    requires x != [] && NoSpace(x) && rep != [] && AllSpace(rep)
    ensures !Contains(ReplaceAll(s, x, rep), x)
    decreases |s|
  {
    var r := ReplaceAll(s, x, rep);
    if |s| >= |x| {
      if s[..|x|] == x {
        var rest := ReplaceAll(s[|x|..], x, rep);
        ReplaceAllRemoves(s[|x|..], x, rep);
        forall i | 0 <= i <= |r| ensures !OccursAt(r, x, i) {
          if i < |rep| {
            NotOccursInSpaces(rep, rest, x, i);
          } else if OccursAt(r, x, i) {
            OccursInRight(rep, rest, x, i);
          }
        }
      } else {
        var rest := ReplaceAll(s[1..], x, rep);
        ReplaceAllRemoves(s[1..], x, rep);
        forall i | 0 <= i <= |r| ensures !OccursAt(r, x, i) {
          if i == 0 {
            if OccursAt(r, x, 0) {
              ReplacePrefix(s, x, rep, |x|);
            }
          } else if OccursAt(r, x, i) {
            OccursInRight([s[0]], rest, x, i);
          }
        }
      }
    }
  }

  /** Replacing any pattern by whitespace cannot create a word without whitespace. */
  lemma {:induction false} ReplaceAllKeepsAbsent(s: string, y: string, rep: string, x: string)
    requires y != [] && rep != [] && AllSpace(rep)
    requires x != [] && NoSpace(x) && !Contains(s, x)
    ensures !Contains(ReplaceAll(s, y, rep), x)
    decreases |s|
  {
    var r := ReplaceAll(s, y, rep);
    if |s| >= |y| {
      if s[..|y|] == y {
        var t := s[|y|..];
        if Contains(t, x) {
          assert s[|y|..|s|] == t;
          ContainsSlice(s, |y|, |s|, x);
        }
        var rest := ReplaceAll(t, y, rep);
        ReplaceAllKeepsAbsent(t, y, rep, x);
        forall i | 0 <= i <= |r| ensures !OccursAt(r, x, i) {
          if i < |rep| {
            NotOccursInSpaces(rep, rest, x, i);
          } else if OccursAt(r, x, i) {
            OccursInRight(rep, rest, x, i);
          }
        }
      } else {
        var t := s[1..];
        if Contains(t, x) {
          assert s[1..|s|] == t;
          ContainsSlice(s, 1, |s|, x);
        }
        var rest := ReplaceAll(t, y, rep);
        ReplaceAllKeepsAbsent(t, y, rep, x);
        assert !OccursAt(s, x, 0);
        forall i | 0 <= i <= |r| ensures !OccursAt(r, x, i) {
          if i == 0 {
            if OccursAt(r, x, 0) {
              ReplacePrefix(s, y, rep, |x|);
            }
          } else if OccursAt(r, x, i) {
            OccursInRight([s[0]], rest, x, i);
          }
        }
      }
    }
  }

  // ---------------------------------------------------------------- str.split(sep) and sep.join

  /** `sep.join(parts)` */
  function Join(parts: seq<string>, sep: string): (r: string)
    ensures |parts| == 1 ==> r == parts[0]
  {
    if parts == [] then ""
    else if |parts| == 1 then parts[0]
    else parts[0] + sep + Join(parts[1..], sep)
  }

  /** `s.split(c)` for a one-character separator: the pieces between the occurrences of
      `c`; joining them back with `c` gives `s` again. */
  function SplitOn(s: string, c: char): (parts: seq<string>)
    ensures |parts| >= 1
    ensures forall i :: 0 <= i < |parts| ==> c !in parts[i]
    ensures Join(parts, [c]) == s
    decreases |s|
  {
    if c in s then
      var k := FirstIndex(s, c);
      var rest := SplitOn(s[k + 1..], c);
      assert s == s[..k] + [c] + s[k + 1..];
      [s[..k]] + rest
    else [s]
  }

  /** The last part of a join is what follows the last separator. */
  lemma {:induction false} JoinLast(parts: seq<string>, sep: string)
    requires |parts| >= 2
    ensures Join(parts, sep) == Join(parts[..|parts| - 1], sep) + sep + parts[|parts| - 1]
    decreases |parts|
  {
    if |parts| > 2 {
      JoinLast(parts[1..], sep);
      assert parts[1..][..|parts| - 2] == parts[..|parts| - 1][1..];
    } else {
      assert parts[..1] == [parts[0]];
    }
  }

  /** Parts free of `c` that join with `c` into a text holding `c` are at least two, and
      the last of them is what follows the last `c`. */
  lemma JoinedLast(parts: seq<string>, c: char, s: string)
    requires |parts| >= 1 && Join(parts, [c]) == s && c in s
    requires c !in parts[|parts| - 1]
    ensures |parts| >= 2
    ensures s == Join(parts[..|parts| - 1], [c]) + [c] + parts[|parts| - 1]
  {
    if |parts| > 1 {
      JoinLast(parts, [c]);
    }
  }

  /** `s.split(c)[-1]`: the text after the last `c`, or all of `s` when it has none. */
  function AfterLast(s: string, c: char): (r: string)
    ensures c !in r
  {
    var parts := SplitOn(s, c);
    parts[|parts| - 1]
  }

  /** When `s` holds `c`, `AfterLast` is exactly what follows its last `c`. */
  lemma AfterLastSplits(s: string, c: char) returns (front: string)
    requires c in s
    ensures s == front + [c] + AfterLast(s, c)
  {
    var parts := SplitOn(s, c);
    JoinedLast(parts, c, s);
    front := Join(parts[..|parts| - 1], [c]);
  }

  /** With no `c` in `s`, `AfterLast` is `s` itself. */
  lemma AfterLastAbsent(s: string, c: char)
    requires c !in s
    ensures AfterLast(s, c) == s
  {
  }

  /** Splitting undoes joining, for pieces that do not contain the separator. */
  lemma {:induction false} SplitOnJoin(parts: seq<string>, c: char)
    requires |parts| >= 1 && forall i :: 0 <= i < |parts| ==> c !in parts[i]
    ensures SplitOn(Join(parts, [c]), c) == parts
  {
    if |parts| > 1 {
      var more := parts[1..];
      var tail := Join(more, [c]);
      assert Join(parts, [c]) == parts[0] + [c] + tail;
      assert forall i :: 0 <= i < |more| ==> more[i] == parts[i + 1];
      SplitOnJoin(more, c);
      SplitOnAt(parts[0], c, tail);
      assert parts == [parts[0]] + more;
    }
  }

  /** The first piece ends at the first separator. */
  lemma SplitOnAt(a: string, c: char, b: string)
    requires c !in a
    ensures SplitOn(a + [c] + b, c) == [a] + SplitOn(b, c)
  {
    var s := a + [c] + b;
    FirstIndexAfter(a, c, b);
    assert s[..|a|] == a;
    assert s[|a| + 1..] == b;
  }

  lemma FirstIndexAfter<T>(a: seq<T>, x: T, b: seq<T>)
    requires x !in a
    ensures x in a + [x] + b && FirstIndex(a + [x] + b, x) == |a|
  {
    var s := a + [x] + b;
    assert s[|a|] == x;
    var k := FirstIndex(s, x);
    assert forall i :: 0 <= i < |a| ==> s[i] == a[i];
    assert forall i :: 0 <= i < k ==> s[..k][i] == s[i];
  }
}
