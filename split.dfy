/**
 * `text.split(/\s+/)`: the text cut at every maximal run of JavaScript
 * whitespace. The pieces before the first and after the last run are kept
 * even when empty.
 */
module TextSplit {

  /** The characters JavaScript's `\s` matches: WhiteSpace and LineTerminator of ECMAScript. */
  predicate IsJsSpace(c: char)
  {
    var v := c as int;
    v == 0x09 || v == 0x0A || v == 0x0B || v == 0x0C || v == 0x0D || v == 0x20 || v == 0xA0
    || v == 0x1680 || (0x2000 <= v <= 0x200A) || v == 0x2028 || v == 0x2029 || v == 0x202F
    || v == 0x205F || v == 0x3000 || v == 0xFEFF
  }

  predicate NoSpace(w: string)
  {
    forall i :: 0 <= i < |w| ==> !IsJsSpace(w[i])
  }

  /** The length of the longest prefix without whitespace. */
  function WordLength(s: string): (n: nat)
    ensures n <= |s|
    ensures n < |s| ==> IsJsSpace(s[n])
  {
    if s == [] || IsJsSpace(s[0]) then 0 else 1 + WordLength(s[1..])
  }

  /** The first word holds no whitespace. */
  lemma {:induction false} WordNoSpace(s: string)
    ensures NoSpace(s[..WordLength(s)])
  {
    var n := WordLength(s);
    if n > 0 {
      WordNoSpace(s[1..]);
      assert forall i :: 0 < i < n ==> s[..n][i] == s[1..][..n - 1][i - 1];
    }
  }

  /** The length of the longest prefix of whitespace. */
  function SpaceLength(s: string): (n: nat)
    ensures n <= |s|
    ensures n < |s| ==> !IsJsSpace(s[n])
    ensures s != [] && IsJsSpace(s[0]) ==> n >= 1
  {
    if s == [] || !IsJsSpace(s[0]) then 0 else 1 + SpaceLength(s[1..])
  }

  /** `s.split(/\s+/)`. */
  function Split(s: string): (r: seq<string>)
    ensures |r| >= 1
    ensures s != [] && !IsJsSpace(s[0]) ==> r[0] != ""
    decreases |s|
  {
    var n := WordLength(s);
    if n == |s| then
      assert s[..n] == s;
      [s]
    else
      var rest := s[n..];
      [s[..n]] + Split(rest[SpaceLength(rest)..])
  }

  /** The words handed back as they came out of a split: none holds whitespace, and only the first and last may be empty. */
  predicate Splittable(words: seq<string>)
  {
    |words| >= 1
    && (forall i :: 0 <= i < |words| ==> NoSpace(words[i]))
    && (forall i :: 0 < i < |words| - 1 ==> words[i] != "")
  }

  /** Every split is splittable; in particular no word in the middle is empty. */
  lemma {:induction false} SplitSplittable(s: string)
    ensures Splittable(Split(s))
    decreases |s|
  {
    var n := WordLength(s);
    WordNoSpace(s);
    if n == |s| {
      assert s[..n] == s;
    } else {
      var k := SpaceLength(s[n..]);
      var after := s[n + k..];
      SplitConsAt(s, n, k, after);
      SplitSplittable(after);
      if after != [] {
        assert after[0] == s[n..][k];
      } else {
        SplitEmpty();
      }
      SplittableCons(s[..n], Split(after));
    }
  }

  /** A word without whitespace in front of a split whose first word is nonempty, unless it is the only one. */
  lemma SplittableCons(w: string, words: seq<string>)
    requires NoSpace(w) && Splittable(words)
    requires |words| >= 2 ==> words[0] != ""
    ensures Splittable([w] + words)
  {
    var r := [w] + words;
    assert forall i :: 0 < i < |r| ==> r[i] == words[i - 1];
  }

  function Join(words: seq<string>, sep: string): string
  {
    if words == [] then ""
    else if |words| == 1 then words[0]
    else words[0] + sep + Join(words[1..], sep)
  }

  /** The text with every maximal run of whitespace replaced by one space. */
  function Collapse(s: string): string
    decreases |s|
  {
    if s == [] then ""
    else if IsJsSpace(s[0]) then " " + Collapse(s[SpaceLength(s)..])
    else [s[0]] + Collapse(s[1..])
  }

  lemma {:induction false} CollapseWord(w: string, rest: string)
    requires NoSpace(w)
    ensures Collapse(w + rest) == w + Collapse(rest)
  {
    if w != [] {
      assert (w + rest)[1..] == w[1..] + rest;
      CollapseWord(w[1..], rest);
      assert [w[0]] + (w[1..] + Collapse(rest)) == w + Collapse(rest);
    } else {
      assert w + rest == rest;
    }
  }

  lemma JoinCons(w: string, words: seq<string>)
    requires words != []
    ensures Join([w] + words, " ") == w + " " + Join(words, " ")
  {
    assert ([w] + words)[1..] == words;
  }

  /** A split that goes past the first word: the word, then the split after the whitespace run. */
  lemma SplitCons(s: string)
    requires WordLength(s) < |s|
    ensures var n := WordLength(s); var rest := s[n..];
      Split(s) == [s[..n]] + Split(rest[SpaceLength(rest)..])
  {
  }

  lemma CollapseRun(w: string, rest: string)
    requires NoSpace(w) && rest != [] && IsJsSpace(rest[0])
    ensures Collapse(w + rest) == w + " " + Collapse(rest[SpaceLength(rest)..])
  {
    CollapseWord(w, rest);
  }

  /** Joining the words with single spaces gives the text with its whitespace runs collapsed. */
  lemma {:induction false} JoinSplit(s: string)
    ensures Join(Split(s), " ") == Collapse(s)
    decreases |s|
  {
    var n := WordLength(s);
    WordNoSpace(s);
    if n == |s| {
      assert s[..n] == s;
      CollapseWord(s, "");
      assert s + "" == s;
    } else {
      var rest := s[n..];
      var after := rest[SpaceLength(rest)..];
      assert s == s[..n] + rest;
      CollapseRun(s[..n], rest);
      JoinSplit(after);
      SplitCons(s);
      JoinCons(s[..n], Split(after));
    }
  }

  /** A whitespace-free prefix is read whole into the first word. */
  lemma {:induction false} WordLengthAppend(w: string, t: string)
    requires NoSpace(w)
    ensures WordLength(w + t) == |w| + WordLength(t)
  {
    if w == [] {
      assert w + t == t;
    } else {
      assert (w + t)[1..] == w[1..] + t;
      WordLengthAppend(w[1..], t);
    }
  }

  /** No word reaches past a whitespace character. */
  lemma {:induction false} WordLengthBound(s: string, i: nat)
    requires i < |s| && IsJsSpace(s[i])
    ensures WordLength(s) <= i
  {
    if !IsJsSpace(s[0]) {
      WordLengthBound(s[1..], i - 1);
    }
  }

  lemma OneSpace(t: string)
    requires t == [] || !IsJsSpace(t[0])
    ensures SpaceLength(" " + t) == 1 && (" " + t)[1..] == t
  {
    assert (" " + t)[1..] == t;
  }

  lemma JoinStart(words: seq<string>)
    requires Splittable(words) && (|words| >= 2 ==> words[0] != "")
    ensures var t := Join(words, " "); t == [] || !IsJsSpace(t[0])
  {
    if |words| >= 2 {
      assert Join(words, " ")[0] == words[0][0];
    }
  }

  /** A word, one space, and a text that does not start with whitespace split as that word and the text's split. */
  lemma SplitStep(w: string, t: string)
    requires NoSpace(w) && (t == [] || !IsJsSpace(t[0]))
    ensures Split(w + (" " + t)) == [w] + Split(t)
  {
    var s := w + (" " + t);
    WordLengthAppend(w, " " + t);
    assert s[..|w|] == w && s[|w|..] == " " + t;
    OneSpace(t);
  }

  lemma SplitSingle(w: string)
    requires NoSpace(w)
    ensures Split(w) == [w]
  {
    WordLengthAppend(w, "");
    assert w + "" == w;
    assert w[..|w|] == w;
  }

  lemma SplittableTail(words: seq<string>)
    requires Splittable(words) && |words| >= 2
    ensures Splittable(words[1..])
    ensures |words| >= 3 ==> words[1..][0] != ""
  {
    var tail := words[1..];
    assert forall i :: 0 <= i < |tail| ==> tail[i] == words[i + 1];
  }

  /** Splitting words joined by single spaces gives the words back. */
  lemma {:induction false} SplitJoin(words: seq<string>)
    requires Splittable(words)
    ensures Split(Join(words, " ")) == words
  {
    if |words| == 1 {
      SplitSingle(words[0]);
    } else {
      var tail := words[1..];
      SplittableTail(words);
      JoinStart(tail);
      assert Join(words, " ") == words[0] + (" " + Join(tail, " "));
      SplitStep(words[0], Join(tail, " "));
      SplitJoin(tail);
      assert [words[0]] + tail == words;
    }
  }

  /** Whitespace at the start gives an empty first word. */
  lemma SplitLeading(s: string)
    requires s != [] && IsJsSpace(s[0])
    ensures Split(s)[0] == ""
  {
  }

  function Last(words: seq<string>): string
    requires words != []
  {
    words[|words| - 1]
  }

  lemma LastCons(w: string, words: seq<string>)
    requires words != []
    ensures Last([w] + words) == Last(words)
  {
  }

  /** Whitespace at the end gives an empty last word. */
  lemma {:induction false} SplitTrailing(s: string)
    requires s != [] && IsJsSpace(s[|s| - 1])
    ensures Last(Split(s)) == ""
    decreases |s|
  {
    var after := AfterFirstWord(s);
    if after != [] {
      SplitTrailing(after);
    } else {
      SplitEmpty();
    }
  }

  /** The text after the first word and the whitespace run that ends it; it ends where `s` does. */
  lemma AfterFirstWord(s: string) returns (after: string)
    requires s != [] && IsJsSpace(s[|s| - 1])
    ensures |after| < |s|
    ensures after != [] ==> after[|after| - 1] == s[|s| - 1]
    ensures Last(Split(s)) == Last(Split(after))
  {
    var n := WordLength(s);
    WordLengthBound(s, |s| - 1);
    var k := SpaceLength(s[n..]);
    after := s[n + k..];
    SuffixEnd(s, n + k);
    SplitConsAt(s, n, k, after);
    LastCons(s[..n], Split(after));
  }

  lemma SplitConsAt(s: string, n: nat, k: nat, after: string)
    requires n == WordLength(s) < |s|
    requires k == SpaceLength(s[n..]) && after == s[n + k..]
    ensures Split(s) == [s[..n]] + Split(after)
  {
    assert s[n..][k..] == after;
  }

  lemma SuffixEnd(s: string, i: nat)
    requires 0 < i <= |s|
    ensures |s[i..]| < |s|
    ensures s[i..] != [] ==> s[i..][|s[i..]| - 1] == s[|s| - 1]
  {
  }

  /** The empty text is one empty word. */
  lemma SplitEmpty()
    ensures Split("") == [""]
  {
  }
}
