/** Python string primitives used by the validator, and `normalize_text`
    (authenticator/auther.py:7-14): every whitespace run becomes one space,
    the text is lowercased, then leading and trailing whitespace is removed. */
module Text {

  /** Python's `str.isspace()`, which is also what `\s` matches in a `str`
      pattern and what `str.strip()` removes. */
  predicate IsWs(c: char) {
    || ('\U{0009}' <= c <= '\U{000D}')
    || ('\U{001C}' <= c <= '\U{0020}')
    || c == '\U{0085}' || c == '\U{00A0}' || c == '\U{1680}'
    || ('\U{2000}' <= c <= '\U{200A}')
    || c == '\U{2028}' || c == '\U{2029}' || c == '\U{202F}'
    || c == '\U{205F}' || c == '\U{3000}'
  }

  /** Upper-case letters that `str.lower()` changes in this model: ASCII
      `A`-`Z` and the Latin-1 capitals `À`-`Þ` except the multiplication sign. */
  predicate IsUpper(c: char) {
    ('A' <= c <= 'Z') || ('\U{00C0}' <= c <= '\U{00DE}' && c != '\U{00D7}')
  }

  function LowerChar(c: char): (d: char)
    ensures !IsUpper(d)
    ensures IsWs(d) <==> IsWs(c)
    ensures !IsUpper(c) ==> d == c
    ensures IsUpper(c) ==> d as int == c as int + 32
  {
    if IsUpper(c) then (c as int + 32) as char else c
  }

  /** `str.lower()`, character by character. */
  function Lower(s: string): string {
    seq(|s|, i requires 0 <= i < |s| => LowerChar(s[i]))
  }

  /** Drops leading whitespace (the left half of `str.strip()`). */
  function TrimLeft(s: string): (r: string)
    ensures |r| <= |s| && r == s[|s| - |r|..]
    ensures forall i :: 0 <= i < |s| - |r| ==> IsWs(s[i])
    ensures |r| > 0 ==> !IsWs(r[0])
  {
    if |s| > 0 && IsWs(s[0]) then TrimLeft(s[1..]) else s
  }

  /** Drops trailing whitespace (the right half of `str.strip()`). */
  function TrimRight(s: string): (r: string)
    ensures |r| <= |s| && r == s[..|r|]
    ensures forall i :: |r| <= i < |s| ==> IsWs(s[i])
    ensures |r| > 0 ==> !IsWs(r[|r| - 1])
  {
    if |s| > 0 && IsWs(s[|s| - 1]) then TrimRight(s[..|s| - 1]) else s
  }

  /** `str.strip()` with no argument. */
  function Strip(s: string): string {
    TrimRight(TrimLeft(s))
  }

  predicate OnlySpaces(s: string) {
    forall i :: 0 <= i < |s| && IsWs(s[i]) ==> s[i] == ' '
  }

  predicate NoDoubleWs(s: string) {
    forall i :: 0 < i < |s| && IsWs(s[i]) ==> !IsWs(s[i - 1])
  }

  /** `re.sub(r'\s+', ' ', s)`: scanning left to right, each maximal run of
      whitespace is replaced by a single space. */
  function Collapse(s: string): (r: string)
    ensures |r| == 0 <==> |s| == 0
    ensures |r| <= |s|
    ensures |r| > 0 ==> (IsWs(r[0]) <==> IsWs(s[0]))
    ensures |r| > 0 ==> (IsWs(r[|r| - 1]) <==> IsWs(s[|s| - 1]))
    decreases |s|
  {
    if |s| == 0 then ""
    else if IsWs(s[0]) then " " + Collapse(TrimLeft(s[1..]))
    else [s[0]] + Collapse(s[1..])
  }

  /** After the substitution the only whitespace left is single spaces. */
  lemma {:induction false} CollapseShape(s: string)
    ensures OnlySpaces(Collapse(s)) && NoDoubleWs(Collapse(s))
    decreases |s|
  {
    if |s| > 0 {
      if IsWs(s[0]) {
        var t := TrimLeft(s[1..]);
        CollapseShape(t);
        ConsShape(' ', Collapse(t));
      } else {
        CollapseShape(s[1..]);
        ConsShape(s[0], Collapse(s[1..]));
      }
    }
  }

  /** Prefixing one character keeps the shape unless it makes a double
      whitespace or is whitespace other than a space. */
  lemma ConsShape(x: char, c: string)
    requires OnlySpaces(c) && NoDoubleWs(c)
    requires IsWs(x) ==> x == ' ' && (|c| > 0 ==> !IsWs(c[0]))
    ensures OnlySpaces([x] + c) && NoDoubleWs([x] + c)
  {
    var r := [x] + c;
    forall i | 0 < i < |r| && IsWs(r[i])
      ensures !IsWs(r[i - 1])
    {
      assert r[i] == c[i - 1];
      if i > 1 {
        assert r[i - 1] == c[i - 2];
      }
    }
  }

  predicate NoUpper(s: string) {
    forall i :: 0 <= i < |s| ==> !IsUpper(s[i])
  }

  /** The shape of a normalized text. */
  predicate IsNormal(s: string) {
    && NoUpper(s)
    && OnlySpaces(s)
    && NoDoubleWs(s)
    && (|s| > 0 ==> !IsWs(s[0]) && !IsWs(s[|s| - 1]))
  }

  /** `normalize_text` on a string (authenticator/auther.py:13-14): the
      substitution, then `lower()`, then `strip()`, in that order. */
  function Normalize(s: string): (r: string)
    ensures |r| <= |s|
  {
    Strip(Lower(Collapse(s)))
  }

  /** Normalization yields the shape of a normalized text. */
  lemma NormalizeShape(s: string)
    ensures IsNormal(Normalize(s))
  {
    CollapseShape(s);
    LowerKeepsShape(Collapse(s));
    StripKeepsShape(Lower(Collapse(s)));
  }

  lemma LowerKeepsShape(c: string)
    requires OnlySpaces(c) && NoDoubleWs(c)
    ensures NoUpper(Lower(c)) && OnlySpaces(Lower(c)) && NoDoubleWs(Lower(c))
  {
    var l := Lower(c);
    forall i | 0 < i < |l| && IsWs(l[i])
      ensures !IsWs(l[i - 1])
    {
      assert IsWs(c[i]);
    }
  }

  lemma StripKeepsShape(l: string)
    requires NoUpper(l) && OnlySpaces(l) && NoDoubleWs(l)
    ensures IsNormal(Strip(l))
  {
    var t := TrimLeft(l);
    var u := TrimRight(t);
    SliceKeepsShape(l, |l| - |t|);
    SliceKeepsShape(t, 0, |u|);
    assert u == t[0..|u|];
    if |u| > 0 {
      assert u[0] == t[0];
    }
  }

  /** Any slice of a text keeps the shape properties of the text. */
  lemma SliceKeepsShape(l: string, a: nat, b: nat := |l|)
    requires a <= b <= |l|
    requires NoUpper(l) && OnlySpaces(l) && NoDoubleWs(l)
    ensures NoUpper(l[a..b]) && OnlySpaces(l[a..b]) && NoDoubleWs(l[a..b])
  {
    var m := l[a..b];
    forall i | 0 < i < |m| && IsWs(m[i])
      ensures !IsWs(m[i - 1])
    {
      assert m[i] == l[a + i] && m[i - 1] == l[a + i - 1];
    }
  }

  /** A value read from JSON: either a string, or any other JSON value. */
  datatype TextValue = Str(s: string) | NonString

  /** `normalize_text` on any JSON value: a non-string yields the empty
      string and raises nothing (authenticator/auther.py:11-12). */
  function NormalizeValue(v: TextValue): (r: string)
    ensures v.NonString? ==> r == ""
    ensures v.Str? ==> r == Normalize(v.s)
  {
    match v
    case Str(s) => Normalize(s)
    case NonString => ""
  }

  /** Python's `needle in haystack` on two strings. */
  predicate IsInfix(needle: string, haystack: string) {
    exists k :: 0 <= k <= |haystack| - |needle| && OccursAt(needle, haystack, k)
  }

  /** `needle` occupies `haystack[k..k + |needle|]`. */
  predicate OccursAt(needle: string, haystack: string, k: nat) {
    k + |needle| <= |haystack| && haystack[k..k + |needle|] == needle
  }

  lemma EmptyIsInfix(haystack: string)
    ensures IsInfix("", haystack)
  {
    assert OccursAt("", haystack, 0);
  }

  // ---------------------------------------------------------------------
  // Idempotence: a normalized text is a fixed point of `Normalize`.
  // ---------------------------------------------------------------------

  lemma {:induction false} CollapseFixed(s: string)
    requires OnlySpaces(s) && NoDoubleWs(s)
    ensures Collapse(s) == s
    decreases |s|
  {
    if |s| == 0 {
    } else {
      var t := s[1..];
      TailKeepsShape(s);
      if IsWs(s[0]) {
        assert TrimLeft(t) == t;
        CollapseFixed(t);
        assert s == " " + t;
      } else {
        CollapseFixed(t);
        assert s == [s[0]] + t;
      }
    }
  }

  /** The tail of a collapsed text is collapsed, and a space is followed
      by a non-whitespace character. */
  lemma TailKeepsShape(s: string)
    requires |s| > 0 && OnlySpaces(s) && NoDoubleWs(s)
    ensures OnlySpaces(s[1..]) && NoDoubleWs(s[1..])
    ensures IsWs(s[0]) && |s| > 1 ==> !IsWs(s[1])
  {
    var t := s[1..];
    forall i | 0 < i < |t| && IsWs(t[i])
      ensures !IsWs(t[i - 1])
    {
      assert t[i] == s[i + 1] && t[i - 1] == s[i];
    }
  }

  /** Every normalized text is left unchanged by normalization. */
  lemma NormalFixpoint(s: string)
    requires IsNormal(s)
    ensures Normalize(s) == s
  {
    CollapseFixed(s);
    assert Lower(s) == s;
    assert TrimLeft(s) == s;
    assert TrimRight(s) == s;
  }

  /** `normalize_text(normalize_text(s)) == normalize_text(s)`. */
  lemma NormalizeIdempotent(s: string)
    ensures Normalize(Normalize(s)) == Normalize(s)
  {
    NormalizeShape(s);
    NormalFixpoint(Normalize(s));
  }

  /** Case does not matter to normalization: a text and its lowercased
      form normalize alike, which is what lets a capitalized page match a
      lower-case required text. */
  lemma NormalizeIgnoresCase(s: string)
    ensures Normalize(Lower(s)) == Normalize(s)
  {
    NormalizeIsJoinedWords(s);
    NormalizeIsJoinedWords(Lower(s));
    LowerIdempotent(s);
  }

  /** Lowercasing twice is lowercasing once. */
  lemma LowerIdempotent(s: string)
    ensures Lower(Lower(s)) == Lower(s)
  {
    var l := Lower(s);
    forall i | 0 <= i < |l|
      ensures Lower(l)[i] == l[i]
    {
      assert !IsUpper(l[i]);
    }
  }

  // ---------------------------------------------------------------------
  // An independent reference definition: `" ".join(s.lower().split())`.
  // ---------------------------------------------------------------------

  /** A word of `str.split()`: non-empty and free of whitespace. */
  predicate IsWord(w: string) {
    |w| > 0 && forall i :: 0 <= i < |w| ==> !IsWs(w[i])
  }

  /** Length of the longest whitespace-free prefix. */
  function WordLength(s: string): (n: nat)
    ensures n <= |s|
    ensures forall i :: 0 <= i < n ==> !IsWs(s[i])
    ensures n < |s| ==> IsWs(s[n])
  {
    if |s| == 0 || IsWs(s[0]) then 0 else 1 + WordLength(s[1..])
  }

  /** `str.split()` with no argument: the maximal runs of non-whitespace. */
  function Words(s: string): (ws: seq<string>)
    ensures |ws| <= |s|
    decreases |s|
  {
    var t := TrimLeft(s);
    if |t| == 0 then []
    else
      var n := WordLength(t);
      [t[..n]] + Words(t[n..])
  }

  /** Every piece `str.split()` yields is a word. */
  lemma {:induction false} WordsAreWords(s: string)
    ensures forall i :: 0 <= i < |Words(s)| ==> IsWord(Words(s)[i])
    decreases |s|
  {
    var t := TrimLeft(s);
    if |t| > 0 {
      var n := WordLength(t);
      var rest := Words(t[n..]);
      WordsAreWords(t[n..]);
      LeadingWord(t);
      var ws := Words(s);
      assert ws == [t[..n]] + rest;
      forall i | 0 <= i < |ws|
        ensures IsWord(ws[i])
      {
        if i > 0 {
          assert ws[i] == rest[i - 1];
        }
      }
    }
  }

  /** The whitespace-free prefix of a text that starts with a
      non-whitespace character is a word. */
  lemma LeadingWord(t: string)
    requires |t| > 0 && !IsWs(t[0])
    ensures IsWord(t[..WordLength(t)])
  {
    var n := WordLength(t);
    assert forall i :: 0 <= i < n ==> t[..n][i] == t[i];
  }

  /** `" ".join(ws)`. */
  function JoinWords(ws: seq<string>): string {
    if |ws| == 0 then ""
    else if |ws| == 1 then ws[0]
    else ws[0] + " " + JoinWords(ws[1..])
  }

  lemma {:induction false} JoinWordsEnds(ws: seq<string>)
    requires forall i :: 0 <= i < |ws| ==> IsWord(ws[i])
    ensures |JoinWords(ws)| == 0 <==> |ws| == 0
    ensures |ws| > 0 ==> !IsWs(JoinWords(ws)[0]) && !IsWs(JoinWords(ws)[|JoinWords(ws)| - 1])
  {
    if |ws| == 1 {
      assert IsWord(ws[0]);
    } else if |ws| > 1 {
      assert IsWord(ws[0]);
      JoinWordsEnds(ws[1..]);
    }
  }

  lemma LowerTail(s: string)
    requires |s| > 0
    ensures Lower(s)[1..] == Lower(s[1..])
  {
  }

  lemma {:induction false} TrimLeftLower(s: string)
    ensures TrimLeft(Lower(s)) == Lower(TrimLeft(s))
    decreases |s|
  {
    if |s| > 0 && IsWs(s[0]) {
      LowerTail(s);
      TrimLeftLower(s[1..]);
    }
  }

  /** Lowercasing commutes with whitespace collapsing. */
  lemma {:induction false} LowerCollapse(s: string)
    ensures Lower(Collapse(s)) == Collapse(Lower(s))
    decreases |s|
  {
    if |s| > 0 {
      var ls := Lower(s);
      LowerTail(s);
      assert IsWs(ls[0]) == IsWs(s[0]);
      if IsWs(s[0]) {
        var t := TrimLeft(s[1..]);
        LowerCollapse(t);
        TrimLeftLower(s[1..]);
        LowerSpaceCons(Collapse(t));
        assert Lower(Collapse(s)) == " " + Lower(Collapse(t));
        assert Collapse(ls) == " " + Collapse(TrimLeft(ls[1..]));
      } else {
        LowerCollapse(s[1..]);
        LowerCons(s[0], Collapse(s[1..]));
        assert Lower(Collapse(s)) == [LowerChar(s[0])] + Lower(Collapse(s[1..]));
        assert Collapse(ls) == [ls[0]] + Collapse(ls[1..]);
      }
    }
  }

  lemma LowerCons(c: char, s: string)
    ensures Lower([c] + s) == [LowerChar(c)] + Lower(s)
  {
  }

  lemma LowerSpaceCons(s: string)
    ensures Lower(" " + s) == " " + Lower(s)
  {
  }

  /** Collapsing passes a whitespace-free prefix through unchanged. */
  lemma {:induction false} CollapseWordPrefix(s: string, n: nat)
    requires n <= WordLength(s)
    ensures Collapse(s) == s[..n] + Collapse(s[n..])
    decreases n
  {
    if n > 0 {
      var t := s[1..];
      assert !IsWs(s[0]);
      assert Collapse(s) == [s[0]] + Collapse(t);
      CollapseWordPrefix(t, n - 1);
      assert t[n - 1..] == s[n..];
      assert s[..n] == [s[0]] + t[..n - 1];
      ConsAppend(s[0], t[..n - 1], Collapse(s[n..]));
    }
  }

  lemma ConsAppend(c: char, a: string, b: string)
    ensures [c] + (a + b) == ([c] + a) + b
  {
  }

  function TrailingSpace(s: string): string {
    if |s| > 0 && IsWs(s[|s| - 1]) then " " else ""
  }

  /** A text that starts with a word splits into that word and the rest. */
  lemma WordsCons(t: string)
    requires |t| > 0 && !IsWs(t[0])
    ensures Words(t) == [t[..WordLength(t)]] + Words(t[WordLength(t)..])
  {
    assert TrimLeft(t) == t;
  }

  /** Leading whitespace does not change the words. */
  lemma WordsSkipWs(s: string)
    ensures Words(s) == Words(TrimLeft(s))
  {
    TrimLeftIdempotent(s);
  }

  /** A whitespace run followed by the text `TrimLeft(s)`. */
  lemma CollapseGap(s: string)
    requires |s| > 0 && IsWs(s[0])
    ensures Collapse(s) == " " + Collapse(TrimLeft(s))
  {
  }

  lemma JoinCons(w: string, ws: seq<string>)
    requires |ws| > 0
    ensures JoinWords([w] + ws) == w + " " + JoinWords(ws)
  {
    assert ([w] + ws)[1..] == ws;
  }

  lemma SuffixTrailingSpace(t: string, u: string)
    requires |u| > 0 && |u| <= |t| && u == t[|t| - |u|..]
    ensures TrailingSpace(u) == TrailingSpace(t)
  {
    assert t[|t| - 1] == u[|u| - 1];
  }

  /** The substitution keeps the words and leaves at most one trailing
      space, on a text that does not start with whitespace. */
  lemma {:induction false} CollapseAsWords(t: string)
    requires |t| == 0 || !IsWs(t[0])
    ensures Collapse(t) == JoinWords(Words(t)) + TrailingSpace(t)
    decreases |t|
  {
    if |t| > 0 {
      var n := WordLength(t);
      if n == |t| {
        CollapseOneWord(t);
      } else if |TrimLeft(t[n..])| == 0 {
        CollapseWordThenBlank(t);
      } else {
        var u := TrimLeft(t[n..]);
        CollapseAsWords(u);
        CollapseWordThenMore(t);
      }
    } else {
      assert Words(t) == [];
    }
  }

  lemma CollapseOneWord(t: string)
    requires |t| > 0 && !IsWs(t[0]) && WordLength(t) == |t|
    ensures Collapse(t) == JoinWords(Words(t)) + TrailingSpace(t)
  {
    var n := |t|;
    CollapseWordPrefix(t, n);
    WordsCons(t);
    assert t[..n] == t && t[n..] == "";
    assert Words(t) == [t];
    assert !IsWs(t[n - 1]);
  }

  lemma CollapseWordThenBlank(t: string)
    requires |t| > 0 && !IsWs(t[0]) && WordLength(t) < |t|
    requires |TrimLeft(t[WordLength(t)..])| == 0
    ensures Collapse(t) == JoinWords(Words(t)) + TrailingSpace(t)
  {
    var n := WordLength(t);
    var rest := t[n..];
    CollapseWordPrefix(t, n);
    WordsCons(t);
    CollapseGap(rest);
    WordsSkipWs(rest);
    assert Words(t) == [t[..n]];
    assert Collapse(rest) == " ";
    assert IsWs(t[|t| - 1]) by {
      assert t[|t| - 1] == rest[|rest| - 1];
    }
  }

  lemma CollapseWordThenMore(t: string)
    requires |t| > 0 && !IsWs(t[0]) && WordLength(t) < |t|
    requires var u := TrimLeft(t[WordLength(t)..]);
      |u| > 0 && Collapse(u) == JoinWords(Words(u)) + TrailingSpace(u)
    ensures Collapse(t) == JoinWords(Words(t)) + TrailingSpace(t)
  {
    var n := WordLength(t);
    var w := t[..n];
    var u := TrimLeft(t[n..]);
    var W := Words(u);
    CollapseThenMore(t);
    WordsThenMore(t);
    TrailingThenMore(t, WordLength(t));
    JoinCons(w, W);
    AppendAssoc(w, " ", JoinWords(W), TrailingSpace(u));
  }

  lemma CollapseThenMore(t: string)
    requires |t| > 0 && !IsWs(t[0]) && WordLength(t) < |t|
    ensures Collapse(t) == t[..WordLength(t)] + (" " + Collapse(TrimLeft(t[WordLength(t)..])))
  {
    CollapseWordPrefix(t, WordLength(t));
    CollapseGap(t[WordLength(t)..]);
  }

  lemma WordsThenMore(t: string)
    requires |t| > 0 && !IsWs(t[0])
    ensures Words(t) == [t[..WordLength(t)]] + Words(TrimLeft(t[WordLength(t)..]))
  {
    WordsCons(t);
    WordsSkipWs(t[WordLength(t)..]);
  }

  lemma TrailingThenMore(t: string, n: nat)
    requires n < |t| && |TrimLeft(t[n..])| > 0
    ensures TrailingSpace(TrimLeft(t[n..])) == TrailingSpace(t)
  {
    var rest := t[n..];
    SuffixTrailingSpace(rest, TrimLeft(rest));
    SuffixTrailingSpace(t, rest);
  }

  lemma AppendAssoc(a: string, b: string, c: string, d: string)
    ensures a + (b + (c + d)) == (a + b + c) + d
  {
  }

  lemma TrimLeftIdempotent(s: string)
    ensures TrimLeft(TrimLeft(s)) == TrimLeft(s)
  {
  }

  lemma {:induction false} TrimLeftCollapse(s: string)
    ensures TrimLeft(Collapse(s)) == Collapse(TrimLeft(s))
  {
    if |s| > 0 {
      if IsWs(s[0]) {
        var v := TrimLeft(s[1..]);
        assert TrimLeft(s) == v;
        var c := Collapse(v);
        assert Collapse(s) == " " + c;
        assert (" " + c)[1..] == c;
        assert TrimLeft(c) == c;
      } else {
        assert TrimLeft(s) == s;
        assert TrimLeft(Collapse(s)) == Collapse(s);
      }
    }
  }

  /** Normalization is `" ".join(s.lower().split())`: the lowercased words
      of the input, in order, separated by single spaces. */
  lemma NormalizeIsJoinedWords(s: string)
    ensures Normalize(s) == JoinWords(Words(Lower(s)))
  {
    LowerCollapse(s);
    StripCollapse(Lower(s));
  }

  /** Stripping the substituted text leaves exactly the joined words. */
  lemma StripCollapse(t: string)
    ensures Strip(Collapse(t)) == JoinWords(Words(t))
  {
    var v := TrimLeft(t);
    TrimLeftCollapse(t);
    WordsSkipWs(t);
    CollapseAsWords(v);
    WordsAreWords(v);
    TrimRightJoined(Words(v), TrailingSpace(v));
  }

  lemma TrimRightJoined(ws: seq<string>, extra: string)
    requires forall i :: 0 <= i < |ws| ==> IsWord(ws[i])
    requires extra == "" || extra == " "
    ensures TrimRight(JoinWords(ws) + extra) == JoinWords(ws)
  {
    var j := JoinWords(ws);
    JoinWordsEnds(ws);
    assert TrimRight(j) == j;
    if extra == " " {
      assert (j + " ")[..|j|] == j;
    } else {
      assert j + "" == j;
    }
  }

  /** A text normalizes to the empty string exactly when it is blank. */
  lemma NormalizeEmptyIffBlank(s: string)
    ensures Normalize(s) == "" <==> forall i :: 0 <= i < |s| ==> IsWs(s[i])
  {
    NormalizeIsJoinedWords(s);
    var ls := Lower(s);
    WordsAreWords(ls);
    JoinWordsEnds(Words(ls));
    if forall i :: 0 <= i < |s| ==> IsWs(s[i]) {
      assert forall i :: 0 <= i < |ls| ==> IsWs(ls[i]);
      BlankHasNoWords(ls);
    } else {
      var k :| 0 <= k < |s| && !IsWs(s[k]);
      assert !IsWs(ls[k]);
      NonBlankHasWords(ls, k);
    }
  }

  /** A text with a non-whitespace character has a word. */
  lemma NonBlankHasWords(s: string, k: nat)
    requires k < |s| && !IsWs(s[k])
    ensures |Words(s)| > 0
  {
    var t := TrimLeft(s);
    assert |t| > 0;
  }

  lemma {:induction false} BlankHasNoWords(s: string)
    requires forall i :: 0 <= i < |s| ==> IsWs(s[i])
    ensures Words(s) == []
  {
    assert |TrimLeft(s)| == 0;
  }
}
