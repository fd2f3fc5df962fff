/** Splitting text the way Rust's `split_whitespace`, `split` and `trim` do. */
module Words {
  import opened Decimals

  /** Unicode White_Space. */
  predicate IsSpace(c: char) {
    var n := c as int;
    || 0x09 <= n <= 0x0d || n == 0x20 || n == 0x85 || n == 0xa0 || n == 0x1680
    || 0x2000 <= n <= 0x200a || n == 0x2028 || n == 0x2029 || n == 0x202f || n == 0x205f || n == 0x3000
  }

  predicate Alphabetic(c: char) {
    'a' <= c <= 'z' || 'A' <= c <= 'Z'
  }

  function LowerChar(c: char): char {
    if 'A' <= c <= 'Z' then (c as int + 32) as char else c
  }

  function Lower(s: string): (r: string)
    ensures |r| == |s| && forall i :: 0 <= i < |s| ==> r[i] == LowerChar(s[i])
  {
    seq(|s|, i requires 0 <= i < |s| => LowerChar(s[i]))
  }

  // ----------------------------------------------------------------------- words

  /** How far the word at the front reaches. */
  function WordEnd(s: string): (e: nat)
    ensures e <= |s| && (forall i :: 0 <= i < e ==> !IsSpace(s[i])) && (e < |s| ==> IsSpace(s[e]))
  {
    if s == [] || IsSpace(s[0]) then 0 else 1 + WordEnd(s[1..])
  }

  function Split(s: string): seq<string>
    decreases |s|
  {
    if s == [] then []
    else if IsSpace(s[0]) then Split(s[1..])
    else
      var e := WordEnd(s);
      [s[..e]] + Split(s[e..])
  }

  /** Words with one space between them. */
  function Join(ws: seq<string>): string {
    if ws == [] then "" else if |ws| == 1 then ws[0] else ws[0] + " " + Join(ws[1..])
  }

  predicate IsWord(w: string) {
    w != [] && forall i :: 0 <= i < |w| ==> !IsSpace(w[i])
  }

  ghost predicate AllWords(ws: seq<string>) {
    forall i :: 0 <= i < |ws| ==> IsWord(ws[i])
  }

  lemma WordEndIs(s: string, e: nat)
    requires e <= |s| && (forall i :: 0 <= i < e ==> !IsSpace(s[i])) && (e < |s| ==> IsSpace(s[e]))
    ensures WordEnd(s) == e
  {
    hide IsSpace;
  }

  /** Splitting undoes joining. */
  lemma {:induction false} SplitJoin(ws: seq<string>)
    requires AllWords(ws)
    ensures Split(Join(ws)) == ws
  {
    hide Split;
    if ws == [] {
      NoWords();
    } else {
      assert IsWord(ws[0]);
      if |ws| == 1 {
        OneWord(ws[0]);
      } else {
        FirstWord(ws[0], Join(ws[1..]));
        SplitJoin(ws[1..]);
      }
    }
  }

  lemma NoWords()
    ensures Split("") == []
  {
  }

  lemma OneWord(w: string)
    requires IsWord(w)
    ensures Split(w) == [w]
  {
    WordEndIs(w, |w|);
    assert w[..|w|] == w && w[|w|..] == [];
  }

  lemma FirstWord(w: string, rest: string)
    requires IsWord(w)
    ensures Split(w + " " + rest) == [w] + Split(rest)
  {
    hide WordEnd;
    var s := w + " " + rest;
    WordEndIs(s, |w|);
    assert s[..|w|] == w && s[|w|..] == " " + rest && (" " + rest)[1..] == rest;
    assert s[0] == w[0] && IsSpace(' ');
  }

  /** Writing one more word. */
  lemma {:induction false} JoinSnoc(ws: seq<string>, w: string)
    ensures Join(ws + [w]) == if ws == [] then w else Join(ws) + " " + w
  {
    if ws != [] {
      assert (ws + [w])[1..] == ws[1..] + [w];
      JoinSnoc(ws[1..], w);
      if |ws| > 1 {
        assert ws[0] + " " + (Join(ws[1..]) + " " + w) == ws[0] + " " + Join(ws[1..]) + " " + w;
      }
    }
  }

  lemma {:induction false} JoinNonEmpty(ws: seq<string>)
    requires ws != [] && AllWords(ws)
    ensures var s := Join(ws);
            s != [] && s[0] == ws[0][0] && s[|s| - 1] == ws[|ws| - 1][|ws[|ws| - 1]| - 1]
  {
    assert IsWord(ws[0]);
    if |ws| > 1 { JoinNonEmpty(ws[1..]); }
  }

  /** A property of characters that the words and the space have, the joined text has. */
  lemma {:induction false} JoinChars(ws: seq<string>, p: char -> bool)
    requires p(' ') && forall i, j :: 0 <= i < |ws| && 0 <= j < |ws[i]| ==> p(ws[i][j])
    ensures forall j :: 0 <= j < |Join(ws)| ==> p(Join(ws)[j])
  {
    if |ws| > 1 {
      JoinChars(ws[1..], p);
      assert forall j :: 0 <= j < |ws[0]| ==> p(ws[0][j]);
    } else if |ws| == 1 {
      assert forall j :: 0 <= j < |ws[0]| ==> p(ws[0][j]);
    }
  }

  // ------------------------------------------------------------------------ trim

  function TrimStart(s: string): string {
    if s != [] && IsSpace(s[0]) then TrimStart(s[1..]) else s
  }

  function TrimEnd(s: string): string {
    if s != [] && IsSpace(s[|s| - 1]) then TrimEnd(s[..|s| - 1]) else s
  }

  function Trim(s: string): string {
    TrimEnd(TrimStart(s))
  }

  // ---------------------------------------------------------------------- splits

  /** The pieces between occurrences of `c`. */
  function SplitOn(s: string, c: char): (r: seq<string>)
    ensures |r| >= 1
    decreases |s|
  {
    var i := IndexOf(s, c);
    if i == |s| then [s] else [s[..i]] + SplitOn(s[i + 1..], c)
  }

  lemma {:induction false} IndexOfNone(s: string, c: char)
    requires c !in s
    ensures IndexOf(s, c) == |s|
  {
    if s != [] {
      IndexOfNone(s[1..], c);
      assert s[0] in s;
    }
  }

  lemma SplitOnFirst(a: string, c: char, rest: string)
    requires c !in a
    ensures SplitOn(a + [c] + rest, c) == [a] + SplitOn(rest, c)
  {
    var s := a + [c] + rest;
    IndexAt(a, c, rest);
    assert s[..|a|] == a && s[|a| + 1..] == rest;
  }

  lemma SplitOnThree(a: string, b: string, d: string, c: char)
    requires c !in a && c !in b && c !in d
    ensures SplitOn(a + [c] + (b + [c] + d), c) == [a, b, d]
  {
    hide SplitOn;
    SplitOnFirst(a, c, b + [c] + d);
    SplitOnFirst(b, c, d);
    SplitOnOnly(d, c);
  }

  lemma SplitOnOnly(s: string, c: char)
    requires c !in s
    ensures SplitOn(s, c) == [s]
  {
    IndexOfNone(s, c);
  }
}
