/**
 * The Python string operations the program relies on: str.isspace, str.strip(),
 * str.split(sep), str.split() with no argument, sep.join(parts) and str(n) for a
 * natural number. Strings are sequences of Unicode scalar values.
 */
module PyStr {
  import opened Wrappers

  // ---------------------------------------------------------------------------
  // Whitespace and strip()
  // ---------------------------------------------------------------------------

  /** Python's str.isspace() on one character: the characters strip() and split() treat as blank. */
  predicate IsSpace(c: char) {
    || ('\t' <= c <= '\r')                    // \t \n \v \f \r
    || ('\U{1C}' <= c <= '\U{1F}')            // file, group, record and unit separators
    || c == ' ' || c == '\U{85}' || c == '\U{A0}' || c == '\U{1680}'
    || ('\U{2000}' <= c <= '\U{200A}')
    || c == '\U{2028}' || c == '\U{2029}' || c == '\U{202F}' || c == '\U{205F}' || c == '\U{3000}'
  }

  ghost predicate AllSpace(s: string) {
    forall i :: 0 <= i < |s| ==> IsSpace(s[i])
  }

  /** Neither end of s is whitespace (vacuously true of the empty string). */
  ghost predicate IsStripped(s: string) {
    s == [] || (!IsSpace(s[0]) && !IsSpace(s[|s| - 1]))
  }

  /** s.lstrip(): the longest suffix of s that does not start with whitespace. */
  function TrimLeft(s: string): (r: string)
    ensures |r| <= |s| && r == s[|s| - |r|..]
    ensures AllSpace(s[..|s| - |r|])
    ensures r == [] || !IsSpace(r[0])
  {
    if s != [] && IsSpace(s[0]) then
      var r := TrimLeft(s[1..]);
      assert s[1..][..|s| - 1 - |r|] == s[1..|s| - |r|];
      r
    else
      s
  }

  /**
   * s.strip(): s with its leading and trailing whitespace removed. StripBlank says when
   * it is empty, StripSlice which slice of s it is.
   */
  function Strip(s: string): (r: string)
    ensures IsStripped(r)
  {
    if s == [] then []
    else if IsSpace(s[0]) then Strip(s[1..])
    else if IsSpace(s[|s| - 1]) then Strip(s[..|s| - 1])
    else s
  }

  /** strip() gives the empty string exactly when s is blank. */
  lemma {:induction false} StripBlank(s: string)
    ensures Strip(s) == [] <==> AllSpace(s)
  {
    if s != [] {
      if IsSpace(s[0]) {
        StripBlank(s[1..]);
        assert forall k :: 1 <= k < |s| ==> s[k] == s[1..][k - 1];
      } else if IsSpace(s[|s| - 1]) {
        StripBlank(s[..|s| - 1]);
      }
    }
  }

  /** A concatenation is blank exactly when both its parts are. */
  lemma AllSpaceAppend(a: string, b: string)
    ensures AllSpace(a + b) <==> AllSpace(a) && AllSpace(b)
  {
    assert forall i :: 0 <= i < |a| ==> a[i] == (a + b)[i];
    assert forall i :: 0 <= i < |b| ==> b[i] == (a + b)[|a| + i];
  }

  lemma TailSlice<T>(s: seq<T>, i: nat, n: nat)
    requires i + n < |s|
    ensures s[i + 1..i + 1 + n] == s[1..][i..i + n]
  {
  }

  /** A slice of s[1..] between blank ends is a slice of s between blank ends, when s[0] is blank. */
  lemma SliceBehindBlank(s: string, i: nat, n: nat)
    requires |s| > 0 && IsSpace(s[0]) && i + n <= |s| - 1
    requires AllSpace(s[1..][..i]) && AllSpace(s[1..][i + n..])
    ensures s[i + 1..i + 1 + n] == s[1..][i..i + n]
    ensures AllSpace(s[..i + 1]) && AllSpace(s[i + 1 + n..])
  {
    assert s[..i + 1] == [s[0]] + s[1..][..i];
    assert s[i + 1 + n..] == s[1..][i + n..];
    TailSlice(s, i, n);
    assert AllSpace([s[0]]);
    AllSpaceAppend([s[0]], s[1..][..i]);
  }

  /** A slice of s[..|s| - 1] between blank ends is one of s, when the last character of s is blank. */
  lemma SliceBeforeBlank(s: string, i: nat, n: nat)
    requires |s| > 0 && IsSpace(s[|s| - 1]) && i + n <= |s| - 1
    requires AllSpace(s[..|s| - 1][..i]) && AllSpace(s[..|s| - 1][i + n..])
    ensures s[i..i + n] == s[..|s| - 1][i..i + n]
    ensures AllSpace(s[..i]) && AllSpace(s[i + n..])
  {
    assert s[..i] == s[..|s| - 1][..i];
    assert s[i + n..] == s[..|s| - 1][i + n..] + [s[|s| - 1]];
    assert AllSpace([s[|s| - 1]]);
    AllSpaceAppend(s[..|s| - 1][i + n..], [s[|s| - 1]]);
  }

  /** strip() cuts a blank prefix and a blank suffix off s and keeps the slice between them. */
  lemma {:induction false} StripSlice(s: string) returns (i: nat)
    ensures i + |Strip(s)| <= |s| && s[i..i + |Strip(s)|] == Strip(s)
    ensures AllSpace(s[..i]) && AllSpace(s[i + |Strip(s)|..])
  {
    if s == [] {
      i := 0;
    } else if IsSpace(s[0]) {
      assert Strip(s) == Strip(s[1..]);
      var i' := StripSlice(s[1..]);
      i := i' + 1;
      SliceBehindBlank(s, i', |Strip(s)|);
    } else if IsSpace(s[|s| - 1]) {
      assert Strip(s) == Strip(s[..|s| - 1]);
      i := StripSlice(s[..|s| - 1]);
      SliceBeforeBlank(s, i, |Strip(s)|);
    } else {
      assert Strip(s) == s;
      i := 0;
      assert s[..0] == [] && s[|s|..] == [];
    }
  }

  lemma StripKeepsCharacters(s: string, c: char)
    requires c !in s
    ensures c !in Strip(s)
  {
    var r := Strip(s);
    var i := StripSlice(s);
    forall k | 0 <= k < |r|
      ensures r[k] != c
    {
      assert r[k] == s[i + k];
    }
  }

  /** A string that is already stripped is left unchanged by strip(). */
  lemma StripStripped(s: string)
    requires IsStripped(s)
    ensures Strip(s) == s
  {
  }

  // ---------------------------------------------------------------------------
  // Occurrences of a separator, str.split(sep) and sep.join(parts)
  // ---------------------------------------------------------------------------

  ghost predicate OccursAt(s: string, sep: string, i: int) {
    0 <= i && i + |sep| <= |s| && s[i..i + |sep|] == sep
  }

  ghost predicate Contains(s: string, sep: string) {
    exists i :: OccursAt(s, sep, i)
  }

  /** s.find(sep, i), as an Option: the first position at or after i where sep occurs. */
  function IndexFrom(s: string, sep: string, i: nat): (r: Option<nat>)
    ensures r.Some? ==> i <= r.value && r.value + |sep| <= |s|
    decreases |s| - i
  {
    if i + |sep| > |s| then None
    else if s[i..i + |sep|] == sep then Some(i)
    else IndexFrom(s, sep, i + 1)
  }

  /**
   * What s.find(sep, i) means: a result is an occurrence with none before it, and no
   * result means no occurrence at or after i.
   */
  lemma {:induction false} IndexFromSpec(s: string, sep: string, i: nat)
    ensures IndexFrom(s, sep, i).Some? ==> OccursAt(s, sep, IndexFrom(s, sep, i).value)
    ensures IndexFrom(s, sep, i).Some? ==> forall j :: i <= j < IndexFrom(s, sep, i).value ==> !OccursAt(s, sep, j)
    ensures IndexFrom(s, sep, i).None? ==> forall j :: i <= j ==> !OccursAt(s, sep, j)
    decreases |s| - i
  {
    if i + |sep| <= |s| && s[i..i + |sep|] != sep {
      IndexFromSpec(s, sep, i + 1);
    }
  }

  /** The first occurrence at or after i is what s.find(sep, i) returns. */
  lemma IndexFromIsFirst(s: string, sep: string, i: nat, k: nat)
    requires i <= k && OccursAt(s, sep, k)
    requires forall j :: i <= j < k ==> !OccursAt(s, sep, j)
    ensures IndexFrom(s, sep, i) == Some(k)
  {
    IndexFromSpec(s, sep, i);
  }

  /** s.find(sep, i) finds nothing when sep occurs nowhere at or after i. */
  lemma IndexFromNone(s: string, sep: string, i: nat)
    requires forall j :: i <= j ==> !OccursAt(s, sep, j)
    ensures IndexFrom(s, sep, i).None?
  {
    IndexFromSpec(s, sep, i);
  }

  /**
   * s.split(sep) for a non-empty sep: the pieces between the non-overlapping
   * occurrences of sep, found from left to right. There is always at least one
   * piece; SplitPiecesApart says that no piece contains sep.
   */
  function Split(s: string, sep: string): (parts: seq<string>)
    requires |sep| > 0
    ensures |parts| >= 1
    decreases |s|
  {
    match IndexFrom(s, sep, 0)
    case None => [s]
    case Some(i) => [s[..i]] + Split(s[i + |sep|..], sep)
  }

  /** The first piece of s.split(sep) is everything before the first occurrence of sep. */
  lemma SplitHead(s: string, sep: string)
    requires |sep| > 0
    ensures IndexFrom(s, sep, 0).None? ==> Split(s, sep) == [s]
    ensures IndexFrom(s, sep, 0).Some? ==>
      var i := IndexFrom(s, sep, 0).value;
      Split(s, sep) == [s[..i]] + Split(s[i + |sep|..], sep)
  {
  }

  /** No piece of s.split(sep) contains sep. */
  lemma {:induction false} SplitPiecesApart(s: string, sep: string)
    requires |sep| > 0
    ensures forall k :: 0 <= k < |Split(s, sep)| ==> !Contains(Split(s, sep)[k], sep)
    decreases |s|
  {
    IndexFromSpec(s, sep, 0);
    match IndexFrom(s, sep, 0)
    case None =>
    case Some(i) =>
      var head := s[..i];
      assert !Contains(head, sep) by {
        forall j | OccursAt(head, sep, j) ensures false {
          assert s[j..j + |sep|] == head[j..j + |sep|];
          assert OccursAt(s, sep, j);
        }
      }
      SplitPiecesApart(s[i + |sep|..], sep);
  }

  /** sep.join(parts). */
  function Join(parts: seq<string>, sep: string): string {
    if |parts| == 0 then ""
    else if |parts| == 1 then parts[0]
    else parts[0] + sep + Join(parts[1..], sep)
  }

  lemma JoinCons(head: string, tail: seq<string>, sep: string)
    requires |tail| >= 1
    ensures Join([head] + tail, sep) == head + sep + Join(tail, sep)
  {
    assert ([head] + tail)[1..] == tail;
  }

  lemma SplitAt(s: string, sep: string, i: nat)
    requires OccursAt(s, sep, i)
    ensures s == s[..i] + sep + s[i + |sep|..]
  {
    assert s == s[..i] + s[i..i + |sep|] + s[i + |sep|..];
  }

  /** Joining the pieces of s.split(sep) with sep gives s back. */
  lemma {:induction false} JoinSplit(s: string, sep: string)
    requires |sep| > 0
    ensures Join(Split(s, sep), sep) == s
    decreases |s|
  {
    match IndexFrom(s, sep, 0)
    case None =>
    case Some(i) =>
      var rest := s[i + |sep|..];
      calc {
        Join(Split(s, sep), sep);
        { SplitHead(s, sep); }
        Join([s[..i]] + Split(rest, sep), sep);
        { JoinCons(s[..i], Split(rest, sep), sep); }
        s[..i] + sep + Join(Split(rest, sep), sep);
        { JoinSplit(rest, sep); }
        s[..i] + sep + rest;
        { IndexFromSpec(s, sep, 0); SplitAt(s, sep, i); }
        s;
      }
  }

  /** With a one-character separator an occurrence is just a position holding that character. */
  lemma OccursAtChar(s: string, c: char, j: int)
    ensures OccursAt(s, [c], j) <==> 0 <= j < |s| && s[j] == c
  {
    if 0 <= j < |s| {
      assert s[j..j + 1] == [s[j]];
    }
  }

  /** A string without the separator character splits into itself alone. */
  lemma SplitWithoutChar(s: string, c: char)
    requires c !in s
    ensures Split(s, [c]) == [s]
  {
    forall j | 0 <= j
      ensures !OccursAt(s, [c], j)
    {
      OccursAtChar(s, c, j);
    }
    IndexFromNone(s, [c], 0);
  }

  /** The first c in a + [c] + b is the first c of a, or else the one after a. */
  lemma FirstCharAround(a: string, c: char, b: string)
    ensures IndexFrom(a + [c] + b, [c], 0) == if IndexFrom(a, [c], 0).Some? then IndexFrom(a, [c], 0) else Some(|a|)
  {
    var s := a + [c] + b;
    forall j | 0 <= j < |a|
      ensures OccursAt(s, [c], j) <==> OccursAt(a, [c], j)
    {
      OccursAtChar(s, c, j);
      OccursAtChar(a, c, j);
    }
    OccursAtChar(s, c, |a|);
    IndexFromSpec(a, [c], 0);
    match IndexFrom(a, [c], 0)
    case None =>
      IndexFromIsFirst(s, [c], 0, |a|);
    case Some(k) =>
      IndexFromIsFirst(s, [c], 0, k);
  }

  /** The case of SplitAround where a has no c. */
  lemma SplitAroundFirst(a: string, c: char, b: string)
    requires IndexFrom(a, [c], 0).None?
    ensures Split(a + [c] + b, [c]) == Split(a, [c]) + Split(b, [c])
  {
    var s := a + [c] + b;
    FirstCharAround(a, c, b);
    assert s[..|a|] == a;
    assert s[|a| + 1..] == b;
  }

  /** Splitting on a character distributes over an occurrence of that character. */
  lemma {:induction false} SplitAround(a: string, c: char, b: string)
    ensures Split(a + [c] + b, [c]) == Split(a, [c]) + Split(b, [c])
    decreases |a|
  {
    var s := a + [c] + b;
    FirstCharAround(a, c, b);
    match IndexFrom(a, [c], 0)
    case None =>
      SplitAroundFirst(a, c, b);
    case Some(k) =>
      calc {
        Split(s, [c]);
        { SplitHead(s, [c]); }
        [s[..k]] + Split(s[k + 1..], [c]);
        { assert s[..k] == a[..k]; assert s[k + 1..] == a[k + 1..] + [c] + b; }
        [a[..k]] + Split(a[k + 1..] + [c] + b, [c]);
        { SplitAround(a[k + 1..], c, b); }
        [a[..k]] + (Split(a[k + 1..], [c]) + Split(b, [c]));
        ([a[..k]] + Split(a[k + 1..], [c])) + Split(b, [c]);
        { SplitHead(a, [c]); }
        Split(a, [c]) + Split(b, [c]);
      }
  }

  /** Splitting a join on a character no part contains gives the parts back. */
  lemma {:induction false} SplitJoinChar(parts: seq<string>, c: char)
    requires |parts| >= 1
    requires forall k :: 0 <= k < |parts| ==> c !in parts[k]
    ensures Split(Join(parts, [c]), [c]) == parts
  {
    if |parts| == 1 {
      SplitWithoutChar(parts[0], c);
    } else {
      SplitJoinChar(parts[1..], c);
      SplitAround(parts[0], c, Join(parts[1..], [c]));
      SplitWithoutChar(parts[0], c);
    }
  }

  // ---------------------------------------------------------------------------
  // str.split() with no argument: whitespace tokenisation
  // ---------------------------------------------------------------------------

  /** A token of str.split(): non-empty and free of whitespace. */
  ghost predicate IsToken(w: string) {
    |w| > 0 && forall i :: 0 <= i < |w| ==> !IsSpace(w[i])
  }

  /** The length of the leading run of non-whitespace characters of t. */
  function WordLength(t: string): (n: nat)
    ensures n <= |t|
    ensures forall i :: 0 <= i < n ==> !IsSpace(t[i])
    ensures n == |t| || IsSpace(t[n])
  {
    if t == [] || IsSpace(t[0]) then 0 else 1 + WordLength(t[1..])
  }

  /** The contract of WordLength determines it. */
  lemma WordLengthIs(t: string, n: nat)
    requires n <= |t|
    requires forall i :: 0 <= i < n ==> !IsSpace(t[i])
    requires n == |t| || IsSpace(t[n])
    ensures WordLength(t) == n
  {
  }

  /**
   * s.split(): the maximal runs of non-whitespace characters of s, in order. Leading,
   * trailing and repeated whitespace produce no empty tokens.
   */
  function Tokenize(s: string): seq<string>
    decreases |s|
  {
    var t := TrimLeft(s);
    if t == [] then []
    else
      var n := WordLength(t);
      [t[..n]] + Tokenize(t[n..])
  }

  /** Every token of s.split() is non-empty and free of whitespace. */
  lemma {:induction false} TokenizeTokens(s: string)
    ensures forall k :: 0 <= k < |Tokenize(s)| ==> IsToken(Tokenize(s)[k])
    decreases |s|
  {
    var t := TrimLeft(s);
    if t != [] {
      var n := WordLength(t);
      var w, rest := t[..n], Tokenize(t[n..]);
      TokenizeTokens(t[n..]);
      assert n > 0;
      assert IsToken(w) by {
        forall i | 0 <= i < |w|
          ensures !IsSpace(w[i])
        {
          assert w[i] == t[i];
        }
      }
      assert Tokenize(s) == [w] + rest;
      TokensCons(w, rest);
    }
  }

  lemma TokensCons(w: string, rest: seq<string>)
    requires IsToken(w)
    requires forall k :: 0 <= k < |rest| ==> IsToken(rest[k])
    ensures forall k :: 0 <= k < |[w] + rest| ==> IsToken(([w] + rest)[k])
  {
    forall k | 0 <= k < |[w] + rest|
      ensures IsToken(([w] + rest)[k])
    {
      if k > 0 {
        assert ([w] + rest)[k] == rest[k - 1];
      }
    }
  }

  /** The concatenation of a list of strings. */
  function Concat(ws: seq<string>): string {
    if ws == [] then "" else ws[0] + Concat(ws[1..])
  }

  /** The characters of s that are not whitespace, in order. */
  function NonSpace(s: string): string {
    if s == [] then "" else (if IsSpace(s[0]) then "" else [s[0]]) + NonSpace(s[1..])
  }

  lemma {:induction false} NonSpaceAppend(a: string, b: string)
    ensures NonSpace(a + b) == NonSpace(a) + NonSpace(b)
  {
    if a == [] {
      assert a + b == b;
    } else {
      assert (a + b)[1..] == a[1..] + b;
      NonSpaceAppend(a[1..], b);
    }
  }

  lemma {:induction false} NonSpaceOfBlank(s: string)
    requires AllSpace(s)
    ensures NonSpace(s) == ""
  {
    if s != [] {
      NonSpaceOfBlank(s[1..]);
    }
  }

  lemma {:induction false} NonSpaceOfWord(s: string)
    requires forall i :: 0 <= i < |s| ==> !IsSpace(s[i])
    ensures NonSpace(s) == s
  {
    if s != [] {
      NonSpaceOfWord(s[1..]);
    }
  }

  lemma NonSpaceTrimLeft(s: string)
    ensures NonSpace(TrimLeft(s)) == NonSpace(s)
  {
    var t := TrimLeft(s);
    var pre := s[..|s| - |t|];
    assert s == pre + t;
    NonSpaceAppend(pre, t);
    NonSpaceOfBlank(pre);
  }

  lemma NonSpaceWordFirst(t: string, n: nat)
    requires n <= |t|
    requires forall i :: 0 <= i < n ==> !IsSpace(t[i])
    ensures NonSpace(t) == t[..n] + NonSpace(t[n..])
  {
    assert t == t[..n] + t[n..];
    NonSpaceAppend(t[..n], t[n..]);
    NonSpaceOfWord(t[..n]);
  }

  lemma ConcatCons(w: string, ws: seq<string>)
    ensures Concat([w] + ws) == w + Concat(ws)
  {
    assert ([w] + ws)[1..] == ws;
  }

  /** Tokenisation loses nothing but whitespace: the tokens spell out the non-blank characters of s. */
  lemma {:induction false} TokenizeKeepsText(s: string)
    ensures Concat(Tokenize(s)) == NonSpace(s)
    decreases |s|
  {
    var t := TrimLeft(s);
    NonSpaceTrimLeft(s);
    if t != [] {
      var n := WordLength(t);
      TokenizeKeepsText(t[n..]);
      NonSpaceWordFirst(t, n);
      assert Tokenize(s) == [t[..n]] + Tokenize(t[n..]);
      ConcatCons(t[..n], Tokenize(t[n..]));
    }
  }

  /** gaps[0] + ws[0] + gaps[1] + ws[1] + ... + gaps[|ws|]: the strings ws with the gaps around them. */
  function Weave(gaps: seq<string>, ws: seq<string>): string
    requires |gaps| == |ws| + 1
  {
    if ws == [] then gaps[0] else gaps[0] + ws[0] + Weave(gaps[1..], ws[1..])
  }

  lemma {:induction false} WeaveCons(g: string, w: string, gaps: seq<string>, ws: seq<string>)
    requires |gaps| == |ws| + 1
    ensures Weave([g] + gaps, [w] + ws) == g + w + Weave(gaps, ws)
  {
    assert ([g] + gaps)[1..] == gaps;
    assert ([w] + ws)[1..] == ws;
  }

  /** s is the strings ws with runs of whitespace gaps around them, and the runs between two
   * consecutive strings of ws are not empty. */
  ghost predicate IsLayout(s: string, gaps: seq<string>, ws: seq<string>) {
    && |gaps| == |ws| + 1
    && s == Weave(gaps, ws)
    && (forall k :: 0 <= k < |gaps| ==> AllSpace(gaps[k]))
    && (forall k :: 0 < k < |gaps| - 1 ==> gaps[k] != [])
  }

  /** s.split() keeps maximal runs: s is its tokens with whitespace around them, the whitespace
   * between two consecutive tokens is never empty, and neither is the leading run when s starts
   * with whitespace. */
  lemma {:induction false} TokenizeLayout(s: string) returns (gaps: seq<string>)
    ensures IsLayout(s, gaps, Tokenize(s))
    ensures s != [] && IsSpace(s[0]) ==> gaps[0] != []
    decreases |s|
  {
    if Tokenize(s) == [] {
      gaps := LayoutBlank(s);
    } else {
      var pre, w, rest := TokenizeStep(s);
      var more := TokenizeLayout(rest);
      gaps := LayoutCons(s, pre, w, rest, more, Tokenize(rest), Tokenize(s));
    }
  }

  /** A string without tokens is one run of whitespace. */
  lemma {:induction false} LayoutBlank(s: string) returns (gaps: seq<string>)
    requires Tokenize(s) == []
    ensures IsLayout(s, gaps, Tokenize(s))
    ensures s != [] && IsSpace(s[0]) ==> gaps[0] != []
  {
    assert TrimLeft(s) == [];
    assert s[..|s|] == s;
    gaps := [s];
    assert Weave(gaps, []) == s;
  }

  /** One more token and the whitespace in front of it. */
  lemma {:induction false} LayoutCons(s: string, pre: string, w: string, rest: string,
                                      more: seq<string>, toks: seq<string>, tokens: seq<string>)
    returns (gaps: seq<string>)
    requires tokens == [w] + toks && s == pre + w + rest && AllSpace(pre)
    requires IsLayout(rest, more, toks)
    requires rest != [] && IsSpace(rest[0]) ==> more[0] != []
    requires toks != [] ==> rest != [] && IsSpace(rest[0])
    requires s != [] && IsSpace(s[0]) ==> pre != []
    ensures IsLayout(s, gaps, tokens)
    ensures s != [] && IsSpace(s[0]) ==> gaps[0] != []
  {
    gaps := [pre] + more;
    WeaveCons(pre, w, more, toks);
    forall k | 0 < k < |gaps|
      ensures gaps[k] == more[k - 1]
    {
    }
  }

  /** The first token of s, the whitespace in front of it and what follows it. */
  lemma {:induction false} TokenizeStep(s: string) returns (pre: string, w: string, rest: string)
    requires Tokenize(s) != []
    ensures Tokenize(s) == [w] + Tokenize(rest)
    ensures s == pre + w + rest && AllSpace(pre)
    ensures s != [] && IsSpace(s[0]) ==> pre != []
    ensures |rest| < |s|
    ensures Tokenize(rest) != [] ==> rest != [] && IsSpace(rest[0])
  {
    var t := TrimLeft(s);
    var n := WordLength(t);
    pre, w, rest := s[..|s| - |t|], t[..n], t[n..];
    ThreeParts(s, |s| - |t|, n);
    if s != [] && IsSpace(s[0]) {
      LeadingBlankNonEmpty(s);
    }
    if rest == [] {
      assert TrimLeft(rest) == [];
    }
  }

  lemma {:induction false} ThreeParts<T>(s: seq<T>, k: nat, n: nat)
    requires k + n <= |s|
    ensures s == s[..k] + s[k..][..n] + s[k..][n..]
  {
    assert s == s[..k] + s[k..];
    assert s[k..] == s[k..][..n] + s[k..][n..];
  }

  /** A string that starts with whitespace has a non-empty leading run of it. */
  lemma {:induction false} LeadingBlankNonEmpty(s: string)
    requires Tokenize(s) != []
    requires s == [] || IsSpace(s[0])
    ensures s[..|s| - |TrimLeft(s)|] != []
  {
  }

  /** One blank in front of a string changes nothing about its tokens. */
  lemma TokenizeSkipsBlank(x: string)
    ensures Tokenize(" " + x) == Tokenize(x)
  {
    assert (" " + x)[1..] == x;
  }

  /** A token followed by nothing or by whitespace is the first token. */
  lemma TokenizeWordFirst(w: string, rest: string)
    requires IsToken(w)
    requires rest == [] || IsSpace(rest[0])
    ensures Tokenize(w + rest) == [w] + Tokenize(rest)
  {
    var s := w + rest;
    assert TrimLeft(s) == s;
    assert forall i :: 0 <= i < |w| ==> s[i] == w[i];
    assert rest != [] ==> s[|w|] == rest[0];
    WordLengthIs(s, |w|);
    assert s[..|w|] == w;
    assert s[|w|..] == rest;
  }

  lemma TokenizeWord(w: string)
    requires IsToken(w)
    ensures Tokenize(w) == [w]
  {
    TokenizeWordFirst(w, "");
    assert w + "" == w;
    assert TrimLeft("") == "";
  }

  /** Tokenising tokens joined by single blanks gives the tokens back. */
  lemma {:induction false} TokenizeJoin(tokens: seq<string>)
    requires forall k :: 0 <= k < |tokens| ==> IsToken(tokens[k])
    ensures Tokenize(Join(tokens, " ")) == tokens
  {
    if |tokens| == 0 {
      assert TrimLeft("") == "";
    } else if |tokens| == 1 {
      assert Join(tokens, " ") == tokens[0];
      TokenizeWord(tokens[0]);
    } else {
      var w, more := tokens[0], tokens[1..];
      var tail := Join(more, " ");
      calc {
        Tokenize(Join(tokens, " "));
        { assert tokens == [w] + more; JoinCons(w, more, " "); }
        Tokenize(w + " " + tail);
        { assert w + " " + tail == w + (" " + tail); }
        Tokenize(w + (" " + tail));
        { TokenizeWordFirst(w, " " + tail); }
        [w] + Tokenize(" " + tail);
        { TokenizeSkipsBlank(tail); }
        [w] + Tokenize(tail);
        { TokenizeJoin(more); }
        [w] + more;
        tokens;
      }
    }
  }

  // ---------------------------------------------------------------------------
  // str(n) for a natural number
  // ---------------------------------------------------------------------------

  predicate IsDigit(c: char) {
    '0' <= c <= '9'
  }

  function DigitChar(d: nat): (c: char)
    requires d < 10
    ensures IsDigit(c) && c as int - '0' as int == d
  {
    (('0' as int) + d) as char
  }

  /** str(n): the decimal digits of n, without leading zeros. */
  function NatToString(n: nat): (r: string)
    ensures |r| >= 1
    ensures forall i :: 0 <= i < |r| ==> IsDigit(r[i])
    ensures |r| > 1 ==> r[0] != '0'
  {
    if n < 10 then [DigitChar(n)] else NatToString(n / 10) + [DigitChar(n % 10)]
  }

  /** int(s) for a string of decimal digits. */
  function DigitsValue(s: string): nat
    requires forall i :: 0 <= i < |s| ==> IsDigit(s[i])
  {
    if s == [] then 0
    else
      assert IsDigit(s[|s| - 1]);
      DigitsValue(s[..|s| - 1]) * 10 + (s[|s| - 1] as int - '0' as int)
  }

  /** Reading the digits of str(n) back gives n. */
  lemma {:induction false} NatToStringRoundTrip(n: nat)
    ensures DigitsValue(NatToString(n)) == n
  {
    if n >= 10 {
      NatToStringRoundTrip(n / 10);
      var r := NatToString(n);
      assert r[..|r| - 1] == NatToString(n / 10);
    }
  }

  /** Distinct numbers have distinct decimal strings. */
  lemma NatToStringInjective(m: nat, n: nat)
    requires NatToString(m) == NatToString(n)
    ensures m == n
  {
    NatToStringRoundTrip(m);
    NatToStringRoundTrip(n);
  }
}
