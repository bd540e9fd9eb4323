/**
 * The parts of the Java string library that the chat bean relies on:
 * `Character.isWhitespace`, `String.isBlank`, `String.split("\\s+")`,
 * `String.trim`, `StringBuilder.reverse` and `String.toUpperCase`.
 *
 * A string is a sequence of Unicode scalar values. `StringBuilder.reverse`
 * keeps each surrogate pair in order, so reversing the scalar values is what
 * it does on a well-formed string.
 */
module JavaText {
  import opened Wrappers

  /** What `StringBuilder.append(String)` appends: the text, or "null". */
  function Str(o: Option<string>): string
  {
    match o
    case None => "null"
    case Some(s) => s
  }

  // ---------------------------------------------------------------- whitespace

  /** `\s` in a `java.util.regex` pattern without UNICODE_CHARACTER_CLASS:
      space, tab, line feed, vertical tab, form feed, carriage return. */
  predicate IsRegexSpace(c: char)
  {
    c == ' ' || c == '\t' || c == '\n' || c == '\U{000B}' || c == '\U{000C}' || c == '\r'
  }

  /** `Character.isWhitespace`: the Unicode space, line and paragraph separators
      other than the non-breaking spaces U+00A0, U+2007 and U+202F, together with
      the controls U+0009 to U+000D and U+001C to U+001F. */
  predicate IsWhitespace(c: char)
  {
    ('\U{0009}' <= c <= '\U{000D}') || ('\U{001C}' <= c <= '\U{0020}')
    || c == '\U{1680}' || ('\U{2000}' <= c <= '\U{2006}') || ('\U{2008}' <= c <= '\U{200A}')
    || c == '\U{2028}' || c == '\U{2029}' || c == '\U{205F}' || c == '\U{3000}'
  }

  /** `String.isBlank`: empty, or whitespace only. */
  predicate IsBlank(s: string)
  {
    forall i :: 0 <= i < |s| ==> IsWhitespace(s[i])
  }

  predicate HasRegexSpace(s: string)
  {
    exists i :: 0 <= i < |s| && IsRegexSpace(s[i])
  }

  predicate NoRegexSpace(s: string)
  {
    forall i :: 0 <= i < |s| ==> !IsRegexSpace(s[i])
  }

  predicate AllRegexSpace(s: string)
  {
    forall i :: 0 <= i < |s| ==> IsRegexSpace(s[i])
  }

  /** The characters of `s` that `\s` does not match, in order. */
  function NonSpace(s: string): string
  {
    if s == [] then []
    else (if IsRegexSpace(s[0]) then [] else [s[0]]) + NonSpace(s[1..])
  }

  /** Every regular-expression space is a Java whitespace and is at most ' ',
      so `trim` removes it. */
  lemma RegexSpaceIsWhitespace(c: char)
    ensures IsRegexSpace(c) ==> IsWhitespace(c) && c <= ' '
  {
  }

  lemma {:induction false} NonSpaceAppend(a: string, b: string)
    ensures NonSpace(a + b) == NonSpace(a) + NonSpace(b)
    decreases |a|
  {
    if a == [] {
      assert a + b == b;
    } else {
      assert (a + b)[1..] == a[1..] + b;
      NonSpaceAppend(a[1..], b);
    }
  }

  /** `NonSpace` keeps exactly the characters that are not `\s`. */
  lemma {:induction false} NonSpaceMembers(s: string, c: char)
    ensures c in NonSpace(s) <==> c in s && !IsRegexSpace(c)
    decreases |s|
  {
    if s != [] {
      NonSpaceMembers(s[1..], c);
      assert s == [s[0]] + s[1..];
    }
  }

  lemma {:induction false} NonSpaceOfWord(w: string)
    requires NoRegexSpace(w)
    ensures NonSpace(w) == w
    decreases |w|
  {
    if w != [] {
      NonSpaceOfWord(w[1..]);
    }
  }

  lemma {:induction false} NonSpaceOfRun(w: string)
    requires AllRegexSpace(w)
    ensures NonSpace(w) == []
    decreases |w|
  {
    if w != [] {
      NonSpaceOfRun(w[1..]);
    }
  }

  /** A string whose non-space part is empty is a run of spaces. */
  lemma NonSpaceEmpty(s: string)
    requires NonSpace(s) == []
    ensures AllRegexSpace(s)
  {
    forall i | 0 <= i < |s|
      ensures IsRegexSpace(s[i])
    {
      NonSpaceMembers(s, s[i]);
    }
  }

  // ------------------------------------------------------------------ split

  /** Where the next match of `\s+` starts: the length of the longest prefix
      of `s` with no `\s`. */
  function WordLength(s: string): (k: nat)
    ensures k <= |s|
    ensures k < |s| ==> IsRegexSpace(s[k])
  {
    if s == [] || IsRegexSpace(s[0]) then 0 else 1 + WordLength(s[1..])
  }

  /** What the greedy `\s+` consumes at the start of `s`: the length of the
      longest prefix made of `\s` only. */
  function RunLength(s: string): (k: nat)
    ensures k <= |s|
    ensures k < |s| ==> !IsRegexSpace(s[k])
  {
    if s != [] && IsRegexSpace(s[0]) then 1 + RunLength(s[1..]) else 0
  }

  /** The text before the first match holds no `\s`. */
  lemma {:induction false} WordLengthSpec(s: string)
    ensures NoRegexSpace(s[..WordLength(s)])
    decreases |s|
  {
    if s != [] && !IsRegexSpace(s[0]) {
      var k := WordLength(s[1..]);
      WordLengthSpec(s[1..]);
      assert s[..1 + k] == [s[0]] + s[1..][..k];
    }
  }

  /** The match is made of `\s` only. */
  lemma {:induction false} RunLengthSpec(s: string)
    ensures AllRegexSpace(s[..RunLength(s)])
    decreases |s|
  {
    if s != [] && IsRegexSpace(s[0]) {
      var k := RunLength(s[1..]);
      RunLengthSpec(s[1..]);
      assert s[..1 + k] == [s[0]] + s[1..][..k];
    }
  }

  /** The substrings between successive matches of `\s+`, empty ones included:
      what `Pattern.split` collects before it drops the trailing empty strings. */
  function Pieces(s: string): seq<string>
    decreases |s|
  {
    var k := WordLength(s);
    if k == |s| then [s]
    else
      [s[..k]] + Pieces(s[MatchEnd(s)..])
  }

  /** The successive matches of `\s+` in `s`. */
  function Separators(s: string): seq<string>
    decreases |s|
  {
    var k := WordLength(s);
    if k == |s| then []
    else
      [s[k..MatchEnd(s)]] + Separators(s[MatchEnd(s)..])
  }

  /** The pieces with the separators put back between them. */
  function Weave(pieces: seq<string>, seps: seq<string>): string
    requires |pieces| == |seps| + 1
  {
    if seps == [] then pieces[0]
    else pieces[0] + seps[0] + Weave(pieces[1..], seps[1..])
  }

  /** Concatenation of a sequence of strings. */
  function Concat(ws: seq<string>): string
  {
    if ws == [] then [] else ws[0] + Concat(ws[1..])
  }

  /** Dropping the empty strings at the end, as `Pattern.split` does with a
      limit of zero. */
  function DropTrailingEmpty(p: seq<string>): (r: seq<string>)
    ensures r <= p
    ensures r == [] || r[|r| - 1] != []
    ensures forall i :: |r| <= i < |p| ==> p[i] == []
  {
    if p != [] && p[|p| - 1] == [] then DropTrailingEmpty(p[..|p| - 1]) else p
  }

  /** `s.split("\\s+")`: no match gives back `s` itself (so "" gives [""]);
      otherwise the pieces between the matches, a leading empty one included
      when `s` starts with `\s`, trailing empty ones dropped. */
  function Split(s: string): (tokens: seq<string>)
  {
    if !HasRegexSpace(s) then [s]
    else DropTrailingEmpty(Pieces(s))
  }

  /** Where the first match of `\s+` in `s` ends, when there is one. */
  function MatchEnd(s: string): (m: nat)
    requires WordLength(s) < |s|
    ensures WordLength(s) < m <= |s|
  {
    WordLength(s) + RunLength(s[WordLength(s)..])
  }

  lemma Decompose(s: string, k: nat, m: nat)
    requires k <= m <= |s|
    ensures s == s[..k] + s[k..m] + s[m..]
  {
    assert s[..m] == s[..k] + s[k..m];
  }

  /** The first match of `\s+`: the text before it has no `\s`, the match is
      `\s` only, and the character after it, if any, is not `\s`. */
  lemma FirstMatch(s: string) returns (k: nat, m: nat)
    requires WordLength(s) < |s|
    ensures k == WordLength(s) && m == MatchEnd(s) && k < m <= |s|
    ensures NoRegexSpace(s[..k]) && AllRegexSpace(s[k..m])
    ensures m < |s| ==> !IsRegexSpace(s[m])
  {
    k := WordLength(s);
    WordLengthSpec(s);
    var t := s[k..];
    var n := RunLength(t);
    RunLengthSpec(t);
    m := k + n;
    assert t[..n] == s[k..m];
    if m < |s| {
      assert t[n] == s[m];
    }
  }

  /** One step of `Separators`: the first one is the whole first run. */
  lemma SeparatorsUnfold(s: string) returns (k: nat, m: nat)
    requires WordLength(s) < |s|
    ensures k < m <= |s|
    ensures Separators(s) == [s[k..m]] + Separators(s[m..])
    ensures AllRegexSpace(s[k..m])
  {
    k, m := FirstMatch(s);
  }

  /** One step of `Pieces` and `Separators`: when `s` holds a match, the first
      piece is the text before it, the first separator is the whole run. */
  lemma PiecesUnfold(s: string) returns (k: nat, m: nat)
    requires WordLength(s) < |s|
    ensures k == WordLength(s) && k < m <= |s|
    ensures Pieces(s) == [s[..k]] + Pieces(s[m..])
    ensures Separators(s) == [s[k..m]] + Separators(s[m..])
    ensures NoRegexSpace(s[..k]) && AllRegexSpace(s[k..m])
    ensures s[m..] != [] ==> !IsRegexSpace(s[m..][0])
    ensures s == s[..k] + s[k..m] + s[m..]
  {
    k, m := FirstMatch(s);
    Decompose(s, k, m);
  }

  lemma {:induction false} PiecesWeave(s: string)
    ensures |Pieces(s)| == |Separators(s)| + 1
    ensures Weave(Pieces(s), Separators(s)) == s
    decreases |s|
  {
    if WordLength(s) < |s| {
      var k, m := PiecesUnfold(s);
      PiecesWeave(s[m..]);
    }
  }

  lemma {:induction false} PiecesHaveNoSpace(s: string)
    ensures forall i :: 0 <= i < |Pieces(s)| ==> NoRegexSpace(Pieces(s)[i])
    decreases |s|
  {
    if WordLength(s) < |s| {
      var k, m := PiecesUnfold(s);
      PiecesHaveNoSpace(s[m..]);
      WordsCons(s[..k], Pieces(s[m..]));
    } else {
      WordLengthSpec(s);
      assert s[..|s|] == s;
    }
  }

  lemma WordsCons(x: string, rest: seq<string>)
    requires NoRegexSpace(x)
    requires forall i :: 0 <= i < |rest| ==> NoRegexSpace(rest[i])
    ensures forall i :: 0 <= i < |[x] + rest| ==> NoRegexSpace(([x] + rest)[i])
  {
    var pieces := [x] + rest;
    forall i | 0 < i < |pieces|
      ensures NoRegexSpace(pieces[i])
    {
      assert pieces[i] == rest[i - 1];
    }
  }

  lemma {:induction false} SeparatorsAreRuns(s: string)
    ensures forall i :: 0 <= i < |Separators(s)| ==>
              Separators(s)[i] != [] && AllRegexSpace(Separators(s)[i])
    decreases |s|
  {
    if WordLength(s) < |s| {
      var k, m := SeparatorsUnfold(s);
      SeparatorsAreRuns(s[m..]);
      RunsCons(s[k..m], Separators(s[m..]));
    }
  }

  lemma RunsCons(x: string, rest: seq<string>)
    requires x != [] && AllRegexSpace(x)
    requires forall i :: 0 <= i < |rest| ==> rest[i] != [] && AllRegexSpace(rest[i])
    ensures forall i :: 0 <= i < |[x] + rest| ==> ([x] + rest)[i] != [] && AllRegexSpace(([x] + rest)[i])
  {
    var seps := [x] + rest;
    forall i | 0 < i < |seps|
      ensures seps[i] != [] && AllRegexSpace(seps[i])
    {
      assert seps[i] == rest[i - 1];
    }
  }

  lemma {:induction false} PiecesInnerNonEmpty(s: string)
    ensures Pieces(s)[0] == s[..WordLength(s)]
    ensures forall i :: 0 < i < |Pieces(s)| - 1 ==> Pieces(s)[i] != []
    decreases |s|
  {
    if WordLength(s) < |s| {
      var k, m := PiecesUnfold(s);
      var rest := s[m..];
      PiecesInnerNonEmpty(rest);
      if rest != [] {
        assert WordLength(rest) > 0;
      }
    }
  }

  /** The pieces and the separators put back together give the input; the
      pieces hold no `\s`, each separator is a non-empty run of `\s`, and no
      piece strictly between the first and the last is empty (each run is
      maximal). */
  lemma PiecesReassemble(s: string)
    ensures |Pieces(s)| == |Separators(s)| + 1
    ensures Weave(Pieces(s), Separators(s)) == s
    ensures forall i :: 0 <= i < |Pieces(s)| ==> NoRegexSpace(Pieces(s)[i])
    ensures forall i :: 0 <= i < |Separators(s)| ==>
              Separators(s)[i] != [] && AllRegexSpace(Separators(s)[i])
    ensures forall i :: 0 < i < |Pieces(s)| - 1 ==> Pieces(s)[i] != []
    ensures Pieces(s)[0] == s[..WordLength(s)]
  {
    PiecesWeave(s);
    PiecesHaveNoSpace(s);
    SeparatorsAreRuns(s);
    PiecesInnerNonEmpty(s);
  }

  lemma {:induction false} WeaveNonSpace(pieces: seq<string>, seps: seq<string>)
    requires |pieces| == |seps| + 1
    requires forall i :: 0 <= i < |pieces| ==> NoRegexSpace(pieces[i])
    requires forall i :: 0 <= i < |seps| ==> AllRegexSpace(seps[i])
    ensures NonSpace(Weave(pieces, seps)) == Concat(pieces)
    decreases |seps|
  {
    if seps == [] {
      NonSpaceOfWord(pieces[0]);
      assert Concat(pieces) == pieces[0] + Concat([]);
    } else {
      assert pieces[1..][0] == pieces[1];
      WeaveNonSpace(pieces[1..], seps[1..]);
      NonSpaceAppend(pieces[0] + seps[0], Weave(pieces[1..], seps[1..]));
      NonSpaceAppend(pieces[0], seps[0]);
      NonSpaceOfWord(pieces[0]);
      NonSpaceOfRun(seps[0]);
    }
  }

  lemma {:induction false} ConcatEmptyTail(p: seq<string>, n: nat)
    requires n <= |p|
    requires forall i :: n <= i < |p| ==> p[i] == []
    ensures Concat(p[..n]) == Concat(p)
    decreases |p|
  {
    if n == 0 {
      if p != [] {
        ConcatEmptyTail(p[1..], 0);
        assert p[1..][..0] == p[..0];
      }
    } else {
      ConcatEmptyTail(p[1..], n - 1);
      assert p[1..][..n - 1] == p[..n][1..];
    }
  }

  lemma SplitCharacters(s: string)
    ensures forall i :: 0 <= i < |Split(s)| ==> NoRegexSpace(Split(s)[i])
    ensures Concat(Split(s)) == NonSpace(s)
  {
    var r := Split(s);
    if !HasRegexSpace(s) {
      NonSpaceOfWord(s);
      assert Concat(r) == s + Concat([]);
    } else {
      var p := Pieces(s);
      PiecesReassemble(s);
      WeaveNonSpace(p, Separators(s));
      ConcatEmptyTail(p, |r|);
      assert p[..|r|] == r;
    }
  }

  lemma SplitInnerTokens(s: string)
    ensures forall i :: 0 < i < |Split(s)| ==> Split(s)[i] != []
  {
    if HasRegexSpace(s) {
      var r, p := Split(s), Pieces(s);
      PiecesInnerNonEmpty(s);
      forall i | 0 < i < |r|
        ensures r[i] != []
      {
        assert r[i] == p[i];
      }
    }
  }

  lemma SplitEmpty(s: string)
    ensures Split(s) == [] <==> s != [] && AllRegexSpace(s)
  {
    var r := Split(s);
    RunHasMatch(s);
    if HasRegexSpace(s) {
      SplitCharacters(s);
      if r == [] {
        NonSpaceEmpty(s);
      } else if AllRegexSpace(s) {
        ConcatMember(r, |r| - 1);
        NonSpaceOfRun(s);
      }
    }
  }

  /** A non-empty run of `\s` holds a match. */
  lemma RunHasMatch(s: string)
    ensures s != [] && AllRegexSpace(s) ==> HasRegexSpace(s)
  {
    if s != [] && AllRegexSpace(s) {
      assert IsRegexSpace(s[0]);
    }
  }

  lemma SplitFirst(s: string)
    ensures s != [] && !IsRegexSpace(s[0]) ==> |Split(s)| > 0 && Split(s)[0] != []
    ensures s != [] && IsRegexSpace(s[0]) && !AllRegexSpace(s) ==>
              |Split(s)| > 1 && Split(s)[0] == []
  {
    if HasRegexSpace(s) {
      SplitEmpty(s);
      PiecesReassemble(s);
      if s != [] && IsRegexSpace(s[0]) {
        assert WordLength(s) == 0;
        assert Pieces(s)[0] == [];
      }
    }
  }

  /** What the tokens of `split("\\s+")` are: they hold no `\s`; together they
      are the non-space characters of `s` in order; only the first one can be
      empty, and it is empty exactly when `s` starts with `\s` (or is empty);
      a string of `\s` only gives no token; and a non-blank string gives a
      non-empty last token. */
  lemma SplitShape(s: string)
    ensures forall i :: 0 <= i < |Split(s)| ==> NoRegexSpace(Split(s)[i])
    ensures Concat(Split(s)) == NonSpace(s)
    ensures forall i :: 0 < i < |Split(s)| ==> Split(s)[i] != []
    ensures Split(s) == [] <==> s != [] && AllRegexSpace(s)
    ensures s != [] && !IsRegexSpace(s[0]) ==> |Split(s)| > 0 && Split(s)[0] != []
    ensures s != [] && IsRegexSpace(s[0]) && !AllRegexSpace(s) ==>
              |Split(s)| > 1 && Split(s)[0] == []
    ensures !IsBlank(s) ==> |Split(s)| > 0 && Split(s)[|Split(s)| - 1] != []
  {
    SplitCharacters(s);
    SplitInnerTokens(s);
    SplitEmpty(s);
    SplitFirst(s);
    if !IsBlank(s) {
      var j :| 0 <= j < |s| && !IsWhitespace(s[j]);
      RegexSpaceIsWhitespace(s[j]);
    }
  }

  lemma {:induction false} ConcatMember(ws: seq<string>, i: nat)
    requires i < |ws| && ws[i] != []
    ensures ws[i][0] in Concat(ws)
    decreases |ws|
  {
    if i > 0 {
      ConcatMember(ws[1..], i - 1);
    }
  }

  /** `WordLength` is the one position that ends a space-free prefix at a space
      or at the end. */
  lemma {:induction false} WordLengthAt(s: string, k: nat)
    requires k <= |s| && NoRegexSpace(s[..k])
    requires k < |s| ==> IsRegexSpace(s[k])
    ensures WordLength(s) == k
    decreases k
  {
    if k > 0 {
      var t := s[1..];
      var u := t[..k - 1];
      forall i | 0 <= i < |u|
        ensures !IsRegexSpace(u[i])
      {
        assert u[i] == s[..k][i + 1];
      }
      assert s[..k][0] == s[0];
      if k < |s| {
        assert t[k - 1] == s[k];
      }
      WordLengthAt(t, k - 1);
    }
  }

  lemma {:induction false} RunLengthAt(s: string, k: nat)
    requires k <= |s| && AllRegexSpace(s[..k])
    requires k < |s| ==> !IsRegexSpace(s[k])
    ensures RunLength(s) == k
    decreases k
  {
    if k > 0 {
      var t := s[1..];
      var u := t[..k - 1];
      forall i | 0 <= i < |u|
        ensures IsRegexSpace(u[i])
      {
        assert u[i] == s[..k][i + 1];
      }
      assert s[..k][0] == s[0];
      if k < |s| {
        assert t[k - 1] == s[k];
      }
      RunLengthAt(t, k - 1);
    }
  }

  /** A word, one space, then text that does not start with `\s`: the word is
      the first piece and the rest is split on its own. */
  lemma PiecesOfSpaced(w: string, rest: string)
    requires NoRegexSpace(w)
    requires rest == [] || !IsRegexSpace(rest[0])
    ensures Pieces(w + " " + rest) == [w] + Pieces(rest)
  {
    var s := w + " " + rest;
    SpacedMatch(w, rest);
    assert s[..|w|] == w;
    assert s[|w| + 1..] == rest;
  }

  /** In a word, one space, then text that does not start with `\s`, the first
      match is that one space. */
  lemma SpacedMatch(w: string, rest: string)
    requires NoRegexSpace(w)
    requires rest == [] || !IsRegexSpace(rest[0])
    ensures WordLength(w + " " + rest) == |w| < |w + " " + rest|
    ensures MatchEnd(w + " " + rest) == |w| + 1
  {
    var s := w + " " + rest;
    assert s[..|w|] == w;
    WordLengthAt(s, |w|);
    SpaceRun(rest);
    assert s[|w|..] == " " + rest;
  }

  lemma SpaceRun(rest: string)
    requires rest == [] || !IsRegexSpace(rest[0])
    ensures RunLength(" " + rest) == 1
  {
    var t := " " + rest;
    assert t[..1] == " ";
    if rest != [] {
      assert t[1] == rest[0];
    }
    RunLengthAt(t, 1);
  }

  lemma PiecesOfWord(w: string)
    requires NoRegexSpace(w)
    ensures Pieces(w) == [w]
  {
    assert w[..|w|] == w;
    WordLengthAt(w, |w|);
  }

  /** A question that starts with one space before a word gives a leading
      empty token, then the word. */
  lemma SplitLeadingSpace(w: string)
    requires w != [] && NoRegexSpace(w)
    ensures Split(" " + w) == ["", w]
  {
    assert [] + " " + w == " " + w;
    PiecesOfSpaced([], w);
    PiecesOfWord(w);
    assert IsRegexSpace((" " + w)[0]);
  }

  // ---------------------------------------------------------------- reverse

  /** `new StringBuilder(w).reverse()`. */
  function Reverse(w: string): (r: string)
    ensures |r| == |w|
    ensures forall i :: 0 <= i < |w| ==> r[i] == w[|w| - 1 - i]
  {
    if w == [] then [] else Reverse(w[1..]) + [w[0]]
  }

  /** Reversing twice gives back the word. */
  lemma ReverseInvolutive(w: string)
    ensures Reverse(Reverse(w)) == w
  {
    var r := Reverse(Reverse(w));
    assert forall i :: 0 <= i < |w| ==> r[i] == w[i];
  }

  /** Reversal only moves characters. */
  lemma {:induction false} ReverseKeepsCharacters(w: string)
    ensures multiset(Reverse(w)) == multiset(w)
    ensures NoRegexSpace(w) ==> NoRegexSpace(Reverse(w))
    decreases |w|
  {
    if w != [] {
      ReverseKeepsCharacters(w[1..]);
      assert w == [w[0]] + w[1..];
    }
  }

  // ------------------------------------------------------------------- trim

  /** The leading part of `String.trim`: drop the characters at most ' '. */
  function TrimStart(s: string): (t: string)
  {
    if s != [] && s[0] <= ' ' then TrimStart(s[1..]) else s
  }

  /** The trailing part of `String.trim`: drop the characters at most ' '. */
  function TrimEnd(s: string): (t: string)
  {
    if s != [] && s[|s| - 1] <= ' ' then TrimEnd(s[..|s| - 1]) else s
  }

  /** `String.trim`. */
  function Trim(s: string): (t: string)
  {
    TrimEnd(TrimStart(s))
  }

  /** The leading trim keeps a suffix, which is empty or starts above ' ', and
      removes only characters at most ' '. */
  lemma {:induction false} TrimStartSpec(s: string)
    ensures |TrimStart(s)| <= |s| && TrimStart(s) == s[|s| - |TrimStart(s)|..]
    ensures TrimStart(s) == [] || TrimStart(s)[0] > ' '
    ensures forall i :: 0 <= i < |s| - |TrimStart(s)| ==> s[i] <= ' '
    decreases |s|
  {
    if s != [] && s[0] <= ' ' {
      TrimStartSpec(s[1..]);
    }
  }

  /** The trailing trim keeps a prefix, which is empty or ends above ' ', and
      removes only characters at most ' '. */
  lemma {:induction false} TrimEndSpec(s: string)
    ensures TrimEnd(s) <= s
    ensures TrimEnd(s) == [] || TrimEnd(s)[|TrimEnd(s)| - 1] > ' '
    ensures forall i :: |TrimEnd(s)| <= i < |s| ==> s[i] <= ' '
    decreases |s|
  {
    if s != [] && s[|s| - 1] <= ' ' {
      TrimEndSpec(s[..|s| - 1]);
    }
  }

  /** The trailing trim is determined by where the last character above ' '
      stands: it keeps everything up to it. */
  lemma TrimEndUnique(s: string, n: nat)
    requires n <= |s|
    requires n == 0 || s[n - 1] > ' '
    requires forall i :: n <= i < |s| ==> s[i] <= ' '
    ensures TrimEnd(s) == s[..n]
  {
    TrimEndSpec(s);
    var r := TrimEnd(s);
    if n > 0 {
      assert s[n - 1] > ' ';
    }
    if r != [] {
      assert r[|r| - 1] == s[|r| - 1];
    }
    assert |r| == n;
  }

  /** A character above ' ' is kept, and so is all that stands before it. */
  lemma TrimEndKeepsVisible(s: string, j: nat)
    requires j < |s| && s[j] > ' '
    ensures j < |TrimEnd(s)|
  {
    TrimEndSpec(s);
  }

  /** A prefix is never trimmed when it ends above ' ' or when something above
      ' ' follows it. */
  lemma TrimEndKeepsPrefix(p: string, x: string)
    requires (p != [] && p[|p| - 1] > ' ') || TrimEnd(x) != []
    ensures TrimEnd(p + x) == p + TrimEnd(x)
  {
    TrimEndSpec(x);
    var t := TrimEnd(x);
    LowTail(p, x, |t|);
    VisibleEnd(p, x, t);
    TrimEndUnique(p + x, |p| + |t|);
  }

  lemma VisibleEnd(p: string, x: string, t: string)
    requires t <= x
    requires (t != [] && t[|t| - 1] > ' ') || (t == [] && p != [] && p[|p| - 1] > ' ')
    ensures (p + x)[..|p| + |t|] == p + t
    ensures (p + x)[|p| + |t| - 1] > ' '
  {
    var s := p + x;
    assert s[..|p| + |t|] == p + t;
    if t == [] {
      assert s[|p| - 1] == p[|p| - 1];
    } else {
      assert s[|p| + |t| - 1] == t[|t| - 1];
    }
  }

  lemma LowTail(p: string, x: string, n: nat)
    requires n <= |x|
    requires forall i :: n <= i < |x| ==> x[i] <= ' '
    ensures forall i :: |p| + n <= i < |p + x| ==> (p + x)[i] <= ' '
  {
    var s := p + x;
    forall i | |p| + n <= i < |s|
      ensures s[i] <= ' '
    {
      assert s[i] == x[i - |p|];
    }
  }

  /** A tail of characters at most ' ' is trimmed away entirely. */
  lemma TrimEndDropsTail(x: string, y: string)
    requires forall i :: 0 <= i < |y| ==> y[i] <= ' '
    ensures TrimEnd(x + y) == TrimEnd(x)
  {
    TrimEndSpec(x);
    var t := TrimEnd(x);
    var s := x + y;
    assert s[..|t|] == t;
    if t != [] {
      assert s[|t| - 1] == t[|t| - 1];
    }
    forall i | |t| <= i < |s|
      ensures s[i] <= ' '
    {
      if i >= |x| {
        assert s[i] == y[i - |x|];
      }
    }
    TrimEndUnique(s, |t|);
  }

  /** `trim` of a string that starts above ' ' only works at the end. */
  lemma TrimAnchored(s: string)
    requires s != [] && s[0] > ' '
    ensures Trim(s) == TrimEnd(s)
  {
  }

  // -------------------------------------------------------------- upper case

  /** Upper case of one character, on the ASCII letters only. */
  function UpperChar(c: char): char
  {
    if 'a' <= c <= 'z' then (c as int - 32) as char else c
  }

  /** `toUpperCase`, on the ASCII letters only. */
  function Upper(s: string): string
  {
    seq(|s|, i requires 0 <= i < |s| => UpperChar(s[i]))
  }

  /** Upper-casing keeps the length, leaves no ASCII lower-case letter, moves
      each lower-case letter to its capital and leaves every other character. */
  lemma UpperSpec(s: string)
    ensures |Upper(s)| == |s|
    ensures forall i :: 0 <= i < |s| ==> !('a' <= Upper(s)[i] <= 'z')
    ensures forall i :: 0 <= i < |s| && !('a' <= s[i] <= 'z') ==> Upper(s)[i] == s[i]
    ensures forall i :: 0 <= i < |s| && 'a' <= s[i] <= 'z' ==> Upper(s)[i] as int == s[i] as int - 32
  {
  }

  /** Upper-casing twice is upper-casing once. */
  lemma UpperIdempotent(s: string)
    ensures Upper(Upper(s)) == Upper(s)
  {
  }
}
