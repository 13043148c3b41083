/**
 * The reference rewriter of `patch_html_files`: the substitution
 *   (["'])([^"']+?)(\.jpg|\.jpeg|\.png)(["'])   (case-insensitive)
 *     -> group1 + group2 + ".webp" + group4
 * written as an explicit left-to-right scanner over the markup text.
 *
 * Because neither the body nor an extension may contain a quote, a match that
 * opens at a quote can only close at the very next quote; the lazy body and
 * the alternation order therefore do not influence which text is matched.
 */
module Rewriter {
  import opened Ascii
  import Paths

  /** The replacement extension written into every match. */
  const NewExt: string := ".webp"
  /** The alternatives of the pattern, built from the image extensions. */
  const OldExts: seq<string> := [".jpg", ".jpeg", ".png"]

  predicate IsQuote(c: char) { c == '"' || c == '\'' }

  /** `ext` is one of the old extensions, in any letter case. */
  predicate IsOldExt(ext: string)
  {
    LowerStr(ext) in OldExts
  }

  /** The pattern's alternatives are exactly the image extensions of the image filter. */
  lemma PatternUsesImgExts()
    ensures forall e :: e in OldExts <==> e in Paths.ImgExts
    ensures NewExt == Paths.WebpExt
  {
  }

  predicate NoQuote(t: string)
  {
    forall k :: 0 <= k < |t| ==> !IsQuote(t[k])
  }

  /** `seg` is a non-empty body followed by `ext`, ignoring letter case. */
  predicate EndsWithExt(seg: string, ext: string)
  {
    |seg| > |ext| && LowerStr(seg[|seg| - |ext|..]) == ext
  }

  predicate HasOldExt(seg: string)
  {
    EndsWithExt(seg, OldExts[0]) || EndsWithExt(seg, OldExts[1]) || EndsWithExt(seg, OldExts[2])
  }

  /**
   * Declarative meaning of the pattern: s[i..j+1] is a quote, a non-empty run of
   * non-quote characters, an old extension in any case, and a quote. The two
   * quotes are independent groups, so they need not be the same character.
   */
  predicate MatchesAt(s: string, i: int, j: int)
  {
    0 <= i < j < |s| && IsQuote(s[i]) && IsQuote(s[j]) &&
    NoQuote(s[i + 1..j]) && HasOldExt(s[i + 1..j])
  }

  predicate HasMatch(s: string)
  {
    exists i, j :: 0 <= i < j < |s| && MatchesAt(s, i, j)
  }

  /** Index of the first quote at or after `k`, or |s| if there is none. */
  function NextQuote(s: string, k: nat): (j: nat)
    requires k <= |s|
    ensures k <= j <= |s|
    ensures j < |s| ==> IsQuote(s[j])
    ensures forall m :: k <= m < j ==> !IsQuote(s[m])
    decreases |s| - k
  {
    if k == |s| || IsQuote(s[k]) then k else NextQuote(s, k + 1)
  }

  /** Which old extension ends `seg` after a non-empty body, or -1 if none does. */
  function OldExtIndex(seg: string): (k: int)
    ensures -1 <= k < |OldExts|
    ensures k >= 0 ==> EndsWithExt(seg, OldExts[k])
    ensures k < 0 <==> !HasOldExt(seg)
  {
    if EndsWithExt(seg, OldExts[0]) then 0
    else if EndsWithExt(seg, OldExts[1]) then 1
    else if EndsWithExt(seg, OldExts[2]) then 2
    else -1
  }

  /** One step of the scan: a character copied as is, or a match with its four groups. */
  datatype Token =
    | Plain(c: char)
    | Ref(open: char, body: string, ext: string, close: char)

  predicate WellFormed(t: Token)
  {
    t.Ref? ==>
      IsQuote(t.open) && IsQuote(t.close) && |t.body| > 0 && NoQuote(t.body) && IsOldExt(t.ext)
  }

  /** Does a match open at the first character of `s`? */
  predicate MatchHere(s: string)
  {
    |s| > 0 && IsQuote(s[0]) && NextQuote(s, 1) < |s| && OldExtIndex(s[1..NextQuote(s, 1)]) >= 0
  }

  /** Index of the closing quote of the match that opens at the head of `s`. */
  function MatchEnd(s: string): (j: nat)
    requires MatchHere(s)
    ensures 1 < j < |s| && j == NextQuote(s, 1)
  {
    NextQuote(s, 1)
  }

  /** A text is its prefix followed by its suffix. */
  lemma SplitAt(s: string, n: nat)
    requires n <= |s|
    ensures s == s[..n] + s[n..]
  {
  }

  /** A non-empty text is its first character followed by the rest. */
  lemma SplitHead(s: string)
    requires s != []
    ensures s == [s[0]] + s[1..]
  {
  }

  /** The quote, the two parts of the segment and the closing quote make up `s[..j+1]`. */
  lemma SplitQuoted(s: string, j: nat, m: nat)
    requires 1 <= j < |s| && m <= j - 1
    ensures [s[0]] + s[1..j][..m] + s[1..j][m..] + [s[j]] == s[..j + 1]
  {
    var seg := s[1..j];
    assert seg[..m] + seg[m..] == seg;
    assert s[..j + 1] == [s[0]] + seg + [s[j]];
  }

  /** The match at the head of `s`, split into its four groups. */
  function HeadRef(s: string): (t: Token)
    requires MatchHere(s)
    ensures t.Ref? && WellFormed(t)
    ensures Source(t) == s[..MatchEnd(s) + 1]
  {
    var j := MatchEnd(s);
    var seg := s[1..j];
    var m := |seg| - |OldExts[OldExtIndex(seg)]|;
    MatchHereMatches(s);
    SegmentSplit(seg, m);
    SplitQuoted(s, j, m);
    Ref(s[0], seg[..m], seg[m..], s[j])
  }

  /** A quote-free segment ending in an old extension splits into a body and that extension. */
  lemma SegmentSplit(seg: string, m: int)
    requires NoQuote(seg) && OldExtIndex(seg) >= 0 && m == |seg| - |OldExts[OldExtIndex(seg)]|
    ensures 0 < m < |seg|
    ensures NoQuote(seg[..m]) && IsOldExt(seg[m..])
    ensures seg[..m] + seg[m..] == seg
  {
    NoQuoteSlice(seg, 0, m);
    assert seg[..m] == seg[0..m];
  }

  lemma NoQuoteSlice(t: string, a: int, b: int)
    requires NoQuote(t) && 0 <= a <= b <= |t|
    ensures NoQuote(t[a..b])
  {
    forall k | 0 <= k < b - a ensures !IsQuote(t[a..b][k]) {
      assert t[a..b][k] == t[a + k];
    }
  }

  /** The token read at the head of `s`: the match opening there, or one character. */
  function HeadToken(s: string): (t: Token)
    requires s != []
    ensures WellFormed(t)
  {
    if MatchHere(s) then HeadRef(s) else Plain(s[0])
  }

  /** How many characters the head token consumes. */
  function HeadLength(s: string): (n: nat)
    requires s != []
    ensures 1 <= n <= |s|
  {
    if MatchHere(s) then MatchEnd(s) + 1 else 1
  }

  /**
   * The scanner: at a match, emit it and resume after its closing quote;
   * otherwise copy one character and try again at the next position.
   */
  function Tokenize(s: string): (ts: seq<Token>)
    ensures forall k :: 0 <= k < |ts| ==> WellFormed(ts[k])
    decreases |s|
  {
    if s == [] then [] else [HeadToken(s)] + Tokenize(s[HeadLength(s)..])
  }

  /** The text a token was read from. */
  function Source(t: Token): string
  {
    match t
    case Plain(c) => [c]
    case Ref(open, body, ext, close) => [open] + body + ext + [close]
  }

  /** The replacement `m.group(1) + m.group(2) + ".webp" + m.group(4)`. */
  function Replacement(t: Token): string
  {
    match t
    case Plain(c) => [c]
    case Ref(open, body, _, close) => [open] + body + NewExt + [close]
  }

  function Original(ts: seq<Token>): string
  {
    if ts == [] then [] else Source(ts[0]) + Original(ts[1..])
  }

  function Substituted(ts: seq<Token>): string
  {
    if ts == [] then [] else Replacement(ts[0]) + Substituted(ts[1..])
  }

  /** `pattern.sub(lambda m: ..., text)` */
  function Rewrite(s: string): string
  {
    Substituted(Tokenize(s))
  }

  /** The head token is read from the first `HeadLength(s)` characters. */
  lemma HeadSource(s: string)
    requires s != []
    ensures Source(HeadToken(s)) == s[..HeadLength(s)]
  {
    if !MatchHere(s) {
      assert s[..1] == [s[0]];
    }
  }

  lemma OriginalCons(t: Token, ts: seq<Token>)
    ensures Original([t] + ts) == Source(t) + Original(ts)
  {
    assert ([t] + ts)[1..] == ts;
  }

  lemma SubstitutedCons(t: Token, ts: seq<Token>)
    ensures Substituted([t] + ts) == Replacement(t) + Substituted(ts)
  {
    assert ([t] + ts)[1..] == ts;
  }

  /** One step of the scan: the head token's replacement, then the rewrite of what follows it. */
  lemma RewriteStep(s: string)
    requires s != []
    ensures Rewrite(s) == Replacement(HeadToken(s)) + Rewrite(s[HeadLength(s)..])
  {
    SubstitutedCons(HeadToken(s), Tokenize(s[HeadLength(s)..]));
  }

  /** The scan loses nothing: the texts of the tokens, read back in order, are the input. */
  lemma {:induction false} TokenizeLossless(s: string)
    ensures Original(Tokenize(s)) == s
    decreases |s|
  {
    if s != [] {
      var n := HeadLength(s);
      TokenizeLossless(s[n..]);
      HeadSource(s);
      OriginalCons(HeadToken(s), Tokenize(s[n..]));
      SplitAt(s, n);
    }
  }

  /** The scanner takes a match at the head of the text exactly when the pattern matches there. */
  lemma MatchHereIff(s: string)
    ensures MatchHere(s) <==> exists j :: MatchesAt(s, 0, j)
  {
    if MatchHere(s) {
      MatchHereMatches(s);
    }
    if exists j :: MatchesAt(s, 0, j) {
      var j :| MatchesAt(s, 0, j);
      MatchesMatchHere(s, j);
    }
  }

  lemma MatchHereMatches(s: string)
    requires MatchHere(s)
    ensures MatchesAt(s, 0, MatchEnd(s))
  {
    var j := MatchEnd(s);
    assert NoQuote(s[1..j]) by {
      forall k | 0 <= k < j - 1 ensures !IsQuote(s[1..j][k]) {
        assert s[1..j][k] == s[k + 1];
      }
    }
  }

  lemma MatchesMatchHere(s: string, j: int)
    requires MatchesAt(s, 0, j)
    ensures MatchHere(s) && MatchEnd(s) == j
  {
    var q := NextQuote(s, 1);
    assert q >= j;
    assert q <= j;
  }

  lemma TokenizeHead(s: string)
    requires s != []
    ensures Tokenize(s)[0].Ref? <==> exists j :: MatchesAt(s, 0, j)
  {
    MatchHereIff(s);
  }

  /** A match that does not start at the first character is a match of the tail. */
  lemma MatchesAtTail(s: string, i: int, j: int)
    requires |s| > 0 && 1 <= i
    ensures MatchesAt(s, i, j) <==> MatchesAt(s[1..], i - 1, j - 1)
  {
    if 1 <= i < j < |s| {
      var t := s[1..];
      assert t[i - 1] == s[i] && t[j - 1] == s[j];
      assert t[i..j - 1] == s[i + 1..j];
    }
  }

  /** A text with no match rewrites to itself. */
  lemma {:induction false} NoMatchUnchanged(s: string)
    requires !HasMatch(s)
    ensures Rewrite(s) == s
    decreases |s|
  {
    if s != [] {
      MatchHereIff(s);
      assert !MatchHere(s);
      forall i, j | MatchesAt(s[1..], i, j)
        ensures false
      {
        MatchesAtTail(s, i + 1, j + 1);
      }
      NoMatchUnchanged(s[1..]);
      SplitHead(s);
    }
  }

  /** A text with a match is changed by the rewrite. */
  lemma {:induction false} MatchChanges(s: string, i: int, j: int)
    requires MatchesAt(s, i, j)
    ensures Rewrite(s) != s
    decreases |s|
  {
    if MatchHere(s) {
      HeadMatchChanges(s);
    } else {
      assert i != 0 by {
        if i == 0 { MatchesMatchHere(s, j); }
      }
      MatchesAtTail(s, i, j);
      MatchChanges(s[1..], i - 1, j - 1);
      RewritePlainHead(s);
      SplitHead(s);
    }
  }

  lemma RewritePlainHead(s: string)
    requires s != [] && !MatchHere(s)
    ensures Rewrite(s) == [s[0]] + Rewrite(s[1..])
  {
    RewriteStep(s);
  }

  lemma HeadMatchChanges(s: string)
    requires MatchHere(s)
    ensures Rewrite(s) != s
  {
    var t := HeadRef(s);
    var n := MatchEnd(s) + 1;
    var rest := s[n..];
    RewriteStep(s);
    SplitAt(s, n);
    TokenChanges(t, Rewrite(rest), rest);
  }

  /** Just after the dot, a replaced match has 'w' where the input had j, J, p or P. */
  lemma TokenChanges(t: Token, a: string, b: string)
    requires t.Ref? && WellFormed(t)
    ensures Replacement(t) + a != Source(t) + b
  {
    var k := |t.body| + 2;
    assert (Replacement(t) + a)[k] == 'w';
    assert (Source(t) + b)[k] == t.ext[1];
    assert Lower(t.ext[1]) == LowerStr(t.ext)[1];
  }

  /**
   * The rewrite leaves the text unchanged exactly when the pattern matches
   * nowhere in it; only then is a markup file not written back.
   */
  lemma RewriteUnchangedIff(s: string)
    ensures Rewrite(s) == s <==> !HasMatch(s)
  {
    if HasMatch(s) {
      var i, j :| MatchesAt(s, i, j);
      MatchChanges(s, i, j);
    } else {
      NoMatchUnchanged(s);
    }
  }

  /** Text without any quote character is never changed. */
  lemma NoQuoteUnchanged(s: string)
    requires NoQuote(s)
    ensures Rewrite(s) == s
  {
    NoMatchUnchanged(s);
  }

  /**
   * At most one old extension ends a segment, so the scanner finds the one that
   * is there whatever the order of the alternation.
   */
  lemma OldExtIndexOf(seg: string, k: int)
    requires 0 <= k < |OldExts| && EndsWithExt(seg, OldExts[k])
    ensures OldExtIndex(seg) == k
  {
    var m := |seg|;
    if k == 1 {
      assert LowerStr(seg[m - 4..])[0] == Lower(seg[m - 4]) == LowerStr(seg[m - 5..])[1] == 'j';
    } else if k == 2 {
      assert LowerStr(seg[m - 4..]) == ".png";
      if m > 5 {
        assert LowerStr(seg[m - 5..])[1] == Lower(seg[m - 4]) == LowerStr(seg[m - 4..])[0] == '.';
      }
    }
  }

  /** Splitting off the first character of `a` in `a + b`. */
  lemma ConsConcat(a: string, b: string, x: string)
    requires a != []
    ensures (a + b)[0] == a[0] && (a + b)[1..] == a[1..] + b
    ensures [a[0]] + (a[1..] + x) == a + x
  {
    assert a == [a[0]] + a[1..];
  }

  /** Characters before the first quote are copied unchanged. */
  lemma {:induction false} PlainPrefix(a: string, b: string)
    requires NoQuote(a)
    ensures Rewrite(a + b) == a + Rewrite(b)
    decreases |a|
  {
    if a == [] {
      assert a + b == b;
    } else {
      ConsConcat(a, b, Rewrite(b));
      PlainPrefix(a[1..], b);
      RewritePlainHead(a + b);
    }
  }

  /** A non-empty quote-free body followed by an old extension is a segment the pattern accepts. */
  lemma RefSegment(body: string, ext: string) returns (k: nat)
    requires |body| > 0 && NoQuote(body) && IsOldExt(ext)
    ensures k < |OldExts| && LowerStr(ext) == OldExts[k] && EndsWithExt(body + ext, OldExts[k])
    ensures NoQuote(body + ext) && HasOldExt(body + ext)
  {
    var seg := body + ext;
    assert seg[|seg| - |ext|..] == ext;
    k :| 0 <= k < |OldExts| && LowerStr(ext) == OldExts[k];
    forall m | 0 <= m < |seg| ensures !IsQuote(seg[m]) {
      if m >= |body| {
        assert seg[m] == ext[m - |body|];
        assert LowerStr(ext)[m - |body|] in OldExts[k];
      }
    }
  }

  /** One match: both quotes and the body are kept, the extension becomes `.webp`. */
  lemma MatchStep(open: char, body: string, ext: string, close: char, rest: string)
    requires IsQuote(open) && IsQuote(close) && |body| > 0 && NoQuote(body) && IsOldExt(ext)
    ensures Rewrite([open] + body + ext + [close] + rest) == [open] + body + NewExt + [close] + Rewrite(rest)
  {
    var s := [open] + body + ext + [close] + rest;
    var j := |body| + |ext| + 1;
    var seg := s[1..j];
    assert seg == body + ext;
    assert seg[|seg| - |ext|..] == ext;
    var k := RefSegment(body, ext);
    assert MatchesAt(s, 0, j);
    MatchesMatchHere(s, j);
    OldExtIndexOf(seg, k);
    assert seg[..|body|] == body && seg[|body|..] == ext;
    var t := HeadRef(s);
    assert t == Ref(open, body, ext, close);
    assert s[j + 1..] == rest;
    RewriteStep(s);
  }

  /** A text holding one quoted reference: only its extension changes. */
  lemma SingleReference(pre: string, open: char, body: string, ext: string, close: char, post: string)
    requires NoQuote(pre) && NoQuote(post)
    requires IsQuote(open) && IsQuote(close) && |body| > 0 && NoQuote(body) && IsOldExt(ext)
    ensures Rewrite(pre + [open] + body + ext + [close] + post) == pre + [open] + body + NewExt + [close] + post
  {
    var tail := [open] + body + ext + [close] + post;
    var tail' := [open] + body + NewExt + [close] + post;
    assert pre + [open] + body + ext + [close] + post == pre + tail;
    assert pre + [open] + body + NewExt + [close] + post == pre + tail';
    assert Rewrite(tail) == tail' by {
      MatchStep(open, body, ext, close, post);
      NoQuoteUnchanged(post);
    }
    PlainPrefix(pre, tail);
  }

  /** A quote-free stretch ended by a quote or by the end of the text is what `NextQuote` finds. */
  lemma NextQuoteIs(s: string, k: nat, j: nat)
    requires k <= j <= |s| && (j < |s| ==> IsQuote(s[j])) && NoQuote(s[k..j])
    ensures NextQuote(s, k) == j
  {
    forall m | k <= m < j ensures !IsQuote(s[m]) {
      assert s[k..j][m - k] == s[m];
    }
  }

  /** The next quote after a quote-free segment is the one that ends it. */
  lemma NextQuoteAfter(open: char, seg: string, rest: string)
    requires NoQuote(seg) && (rest == [] || IsQuote(rest[0]))
    ensures NextQuote([open] + seg + rest, 1) == |seg| + 1
  {
    var s := [open] + seg + rest;
    assert s[1..|seg| + 1] == seg;
    assert rest != [] ==> s[|seg| + 1] == rest[0];
    NextQuoteIs(s, 1, |seg| + 1);
  }

  /** No match opens at a quote whose segment, up to the next quote, ends in no old extension. */
  lemma NoMatchAtUnmatchedQuote(open: char, seg: string, rest: string)
    requires NoQuote(seg) && !HasOldExt(seg)
    requires rest == [] || IsQuote(rest[0])
    ensures !MatchHere([open] + seg + rest)
  {
    var s := [open] + seg + rest;
    NextQuoteAfter(open, seg, rest);
    assert s[1..|seg| + 1] == seg;
  }

  lemma QuoteConcat(open: char, seg: string, rest: string, x: string)
    ensures ([open] + seg + rest)[1..] == seg + rest
    ensures [open] + (seg + x) == [open] + seg + x
  {
  }

  /** A quote whose segment, up to the next quote, ends in no old extension is copied with that segment. */
  lemma UnmatchedQuote(open: char, seg: string, rest: string)
    requires IsQuote(open) && NoQuote(seg) && !HasOldExt(seg)
    requires rest == [] || IsQuote(rest[0])
    ensures Rewrite([open] + seg + rest) == [open] + seg + Rewrite(rest)
  {
    var s := [open] + seg + rest;
    QuoteConcat(open, seg, rest, Rewrite(rest));
    NoMatchAtUnmatchedQuote(open, seg, rest);
    RewritePlainHead(s);
    PlainPrefix(seg, rest);
  }

  /** A lone quote is copied. */
  lemma LoneQuoteUnchanged(close: char)
    ensures Rewrite([close]) == [close]
  {
    RewriteUnchangedIff([close]);
  }

  /** The first pass over `"b1.e1"b2.e2"` retargets only the first reference. */
  lemma FirstPassOfTwo(open: char, b1: string, e1: string, close: char, b2: string, e2: string, close2: char)
    requires IsQuote(open) && IsQuote(close) && IsQuote(close2)
    requires |b1| > 0 && NoQuote(b1) && IsOldExt(e1)
    requires |b2| > 0 && NoQuote(b2) && IsOldExt(e2)
    ensures Rewrite([open] + b1 + e1 + [close] + (b2 + e2 + [close2])) ==
      [open] + b1 + NewExt + [close] + (b2 + e2 + [close2])
  {
    var k := RefSegment(b2, e2);
    var seg := b2 + e2;
    var rest := seg + [close2];
    assert Rewrite(rest) == rest by {
      LoneQuoteUnchanged(close2);
      PlainPrefix(seg, [close2]);
    }
    MatchStep(open, b1, e1, close, rest);
  }

  /** A quoted segment ending in an old extension anywhere in a text makes the rewrite change it. */
  lemma QuotedSegmentChanges(pre: string, close: char, seg: string, close2: char)
    requires IsQuote(close) && IsQuote(close2) && NoQuote(seg) && HasOldExt(seg)
    ensures var r := pre + [close] + seg + [close2];
      Rewrite(r) != r
  {
    var r := pre + [close] + seg + [close2];
    var i := |pre|;
    assert r[i] == close && r[|r| - 1] == close2 && r[i + 1..|r| - 1] == seg;
    MatchChanges(r, i, |r| - 1);
  }

  /** After the first pass, the consumed closing quote opens a second reference. */
  lemma SecondPassChanges(open: char, b1: string, close: char, b2: string, e2: string, close2: char)
    requires IsQuote(close) && IsQuote(close2)
    requires |b2| > 0 && NoQuote(b2) && IsOldExt(e2)
    ensures var r := [open] + b1 + NewExt + [close] + (b2 + e2 + [close2]);
      Rewrite(r) != r
  {
    var k := RefSegment(b2, e2);
    var pre := [open] + b1 + NewExt;
    var seg := b2 + e2;
    assert [open] + b1 + NewExt + [close] + (seg + [close2]) == pre + [close] + seg + [close2];
    QuotedSegmentChanges(pre, close, seg, close2);
  }

  /**
   * The closing quote of a match is consumed: in `"b1.e1"b2.e2"` only the first
   * reference is retargeted, and a second pass retargets the second one too,
   * so the rewrite is not idempotent.
   */
  lemma ConsumedClose(open: char, b1: string, e1: string, close: char, b2: string, e2: string, close2: char)
    requires IsQuote(open) && IsQuote(close) && IsQuote(close2)
    requires |b1| > 0 && NoQuote(b1) && IsOldExt(e1)
    requires |b2| > 0 && NoQuote(b2) && IsOldExt(e2)
    ensures var s := [open] + b1 + e1 + [close] + b2 + e2 + [close2];
      var r := [open] + b1 + NewExt + [close] + b2 + e2 + [close2];
      Rewrite(s) == r && Rewrite(r) != r
  {
    var rest := b2 + e2 + [close2];
    assert [open] + b1 + e1 + [close] + b2 + e2 + [close2] == [open] + b1 + e1 + [close] + rest;
    assert [open] + b1 + NewExt + [close] + b2 + e2 + [close2] == [open] + b1 + NewExt + [close] + rest;
    FirstPassOfTwo(open, b1, e1, close, b2, e2, close2);
    SecondPassChanges(open, b1, close, b2, e2, close2);
  }
}

/** Worked examples; each text is given in parts so that the scan is not unrolled on a literal. */
module RewriterExamples {
  import opened Ascii
  import opened Rewriter

  lemma UpperJpgIsOld()
    ensures IsOldExt(".JPG")
  {
    assert Lower('J') == 'j' && Lower('P') == 'p' && Lower('G') == 'g';
    assert LowerStr(".JPG") == ".jpg";
  }

  lemma LowerExtsAreOld()
    ensures IsOldExt(".jpg") && IsOldExt(".png")
  {
    assert LowerStr(".jpg") == ".jpg";
    assert LowerStr(".png") == ".png";
  }

  /** `<img src="pics/a.JPG">` becomes `<img src="pics/a.webp">`. */
  lemma ImgTagRetargeted(pre: string, path: string, ext: string, post: string)
    requires pre == "<img src=" && path == "pics/a" && ext == ".JPG" && post == ">"
    ensures Rewrite(pre + ['"'] + path + ext + ['"'] + post) == pre + ['"'] + path + ".webp" + ['"'] + post
  {
    UpperJpgIsOld();
    SingleReference(pre, '"', path, ext, '"', post);
  }

  /** The two quotes are independent: `"a.png'` becomes `"a.webp'`. */
  lemma MixedQuotesRetargeted(body: string, ext: string)
    requires body == "a" && ext == ".png"
    ensures Rewrite(['"'] + body + ext + ['\'']) == ['"'] + body + ".webp" + ['\'']
  {
    LowerExtsAreOld();
    MatchStep('"', body, ext, '\'', []);
    assert ['"'] + body + ext + ['\''] + [] == ['"'] + body + ext + ['\''];
  }

  /** An extension with an empty body, `".jpg"`, is not a match. */
  lemma EmptyBodyUntouched(ext: string)
    requires ext == ".jpg"
    ensures Rewrite(['"'] + ext + ['"']) == ['"'] + ext + ['"']
  {
    assert !HasOldExt(ext);
    UnmatchedQuote('"', ext, ['"']);
    assert Rewrite(['"']) == ['"'] by {
      NoMatchUnchanged(['"']);
    }
  }

  /** `"x.jpg"y.png"` becomes `"x.webp"y.png"`, which a second pass would change again. */
  lemma NotIdempotent(x: string, y: string)
    requires x == "x" && y == "y"
    ensures var s := ['"'] + x + ".jpg" + ['"'] + y + ".png" + ['"'];
      Rewrite(s) == ['"'] + x + ".webp" + ['"'] + y + ".png" + ['"'] && Rewrite(Rewrite(s)) != Rewrite(s)
  {
    LowerExtsAreOld();
    ConsumedClose('"', x, ".jpg", '"', y, ".png", '"');
  }
}
