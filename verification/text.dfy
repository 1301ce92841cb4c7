/**
 * Tokenisation as the backend performs it: `s.toLowerCase().split(/\W+/)`.
 *
 * A word character is one of `[A-Za-z0-9_]` (what `\W` negates in a regular
 * expression without the `u` flag). Lower-casing is ASCII lower-casing.
 * Splitting cuts at every maximal run of non-word characters and keeps the
 * empty tokens that a leading or trailing run produces, as `split` does.
 */
module Text {

  predicate IsWordChar(c: char) {
    ('A' <= c <= 'Z') || ('a' <= c <= 'z') || ('0' <= c <= '9') || c == '_'
  }

  predicate IsUpper(c: char) {
    'A' <= c <= 'Z'
  }

  predicate AllWordChars(s: string) {
    forall i :: 0 <= i < |s| ==> IsWordChar(s[i])
  }

  /** `s` is a run of separators: no character of it is a word character. */
  predicate AllSeparators(s: string) {
    forall i :: 0 <= i < |s| ==> !IsWordChar(s[i])
  }

  function LowerChar(c: char): char {
    if IsUpper(c) then (c as int + 32) as char else c
  }

  /** ASCII lower-casing: upper-case letters move to their lower-case partner, nothing else changes. */
  function Lower(s: string): (r: string)
    ensures |r| == |s|
    ensures forall i :: 0 <= i < |s| ==> !IsUpper(r[i]) && (IsWordChar(r[i]) <==> IsWordChar(s[i]))
    ensures forall i :: 0 <= i < |s| && !IsUpper(s[i]) ==> r[i] == s[i]
    ensures forall i :: 0 <= i < |s| && IsUpper(s[i]) ==> r[i] as int - s[i] as int == 'a' as int - 'A' as int
  {
    seq(|s|, i requires 0 <= i < |s| => LowerChar(s[i]))
  }

  /**
   * `s.split(/\W+/)`, one character at a time: a word character joins the
   * first token of the rest; a separator character that is followed by
   * another one belongs to the same maximal run and adds nothing; the last
   * character of a run ends a token. So a leading run gives an empty first
   * token, a trailing run an empty last token, and `""` splits into `[""]`.
   */
  function Split(s: string): (tokens: seq<string>)
    ensures |tokens| >= 1
    decreases |s|
  {
    if s == [] then [""]
    else
      var rest := Split(s[1..]);
      if IsWordChar(s[0]) then [[s[0]] + rest[0]] + rest[1..]
      else if s[1..] != [] && !IsWordChar(s[1]) then rest
      else [""] + rest
  }

  /** The tokens that the backend compares: `s.toLowerCase().split(/\W+/)`. */
  function Tokenize(s: string): (tokens: seq<string>)
    ensures |tokens| >= 1
  {
    Split(Lower(s))
  }

  /** Joins strings in order, with nothing between them. */
  function Concat(parts: seq<string>): string {
    if parts == [] then [] else parts[0] + Concat(parts[1..])
  }

  /** The word characters of `s`, in order: what survives splitting. */
  function WordChars(s: string): string {
    if s == [] then []
    else if IsWordChar(s[0]) then [s[0]] + WordChars(s[1..])
    else WordChars(s[1..])
  }

  /** Splitting after a leading word character extends the first token. */
  lemma SplitWordCons(c: char, t: string, first: string, others: seq<string>)
    requires IsWordChar(c)
    requires Split(t) == [first] + others
    ensures Split([c] + t) == [[c] + first] + others
  {
    assert ([c] + t)[1..] == t;
    assert Split(t)[0] == first && Split(t)[1..] == others;
  }

  /**
   * The number of separator runs in `s`: positions holding a separator that
   * is the last character or is followed by a word character.
   */
  function RunEnds(s: string): nat {
    if s == [] then 0
    else
      var endsHere := !IsWordChar(s[0]) && (|s| == 1 || IsWordChar(s[1]));
      (if endsHere then 1 else 0) + RunEnds(s[1..])
  }

  /** Every maximal separator run makes exactly one cut: one token more than there are runs. */
  lemma {:induction false} SplitCount(s: string)
    ensures |Split(s)| == 1 + RunEnds(s)
    decreases |s|
  {
    if s != [] {
      SplitCount(s[1..]);
    }
  }

  /** A word in front of `t` is glued to the first token of `t`; the other tokens stay the same. */
  lemma {:induction false} SplitWordPrefix(w: string, t: string)
    requires AllWordChars(w)
    ensures Split(w + t) == [w + Split(t)[0]] + Split(t)[1..]
    decreases |w|
  {
    if w == [] {
      assert w + t == t;
      assert w + Split(t)[0] == Split(t)[0];
      assert Split(t) == [Split(t)[0]] + Split(t)[1..];
    } else {
      var tail := w[1..];
      assert AllWordChars(tail) by {
        forall i | 0 <= i < |tail|
          ensures IsWordChar(tail[i])
        {
          assert tail[i] == w[i + 1];
        }
      }
      SplitWordPrefix(tail, t);
      assert w + t == [w[0]] + (tail + t);
      assert w + Split(t)[0] == [w[0]] + (tail + Split(t)[0]);
      SplitWordCons(w[0], tail + t, tail + Split(t)[0], Split(t)[1..]);
    }
  }

  /** A string of word characters only is a single token. */
  lemma SplitWord(w: string)
    requires AllWordChars(w)
    ensures Split(w) == [w]
  {
    SplitWordPrefix(w, []);
    assert w + [] == w;
    assert w + "" == w;
  }

  /**
   * A leading separator run, followed by nothing or by a word character,
   * contributes one empty token in front of the tokens of the rest.
   */
  lemma {:induction false} SplitGap(g: string, t: string)
    requires g != [] && AllSeparators(g)
    requires t == [] || IsWordChar(t[0])
    ensures Split(g + t) == [""] + Split(t)
    decreases |g|
  {
    var s := g + t;
    assert s[0] == g[0];
    if |g| == 1 {
      assert s[1..] == t;
    } else {
      var tail := g[1..];
      assert AllSeparators(tail) by {
        forall i | 0 <= i < |tail|
          ensures !IsWordChar(tail[i])
        {
          assert tail[i] == g[i + 1];
        }
      }
      assert s[1..] == tail + t;
      assert s[1] == g[1];
      SplitGap(tail, t);
    }
  }

  /**
   * Where the cuts fall: a word, then a whole separator run, then the rest
   * (empty or starting with a word character) splits into that word followed
   * by the tokens of the rest. With `SplitWord` and `SplitGap` this fixes
   * `Split` on every input.
   */
  lemma SplitWordGap(w: string, g: string, t: string)
    requires AllWordChars(w)
    requires g != [] && AllSeparators(g)
    requires t == [] || IsWordChar(t[0])
    ensures Split(w + g + t) == [w] + Split(t)
  {
    SplitGap(g, t);
    SplitWordPrefix(w, g + t);
    assert w + g + t == w + (g + t);
    assert w + "" == w;
    assert ([""] + Split(t))[1..] == Split(t);
  }

  /** Every token consists of word characters. */
  lemma {:induction false} SplitTokensAreWords(s: string)
    ensures forall k :: 0 <= k < |Split(s)| ==> AllWordChars(Split(s)[k])
    decreases |s|
  {
    if s != [] {
      var rest := Split(s[1..]);
      SplitTokensAreWords(s[1..]);
      if IsWordChar(s[0]) {
        var r := Split(s);
        assert AllWordChars(rest[0]);
        forall k | 0 < k < |r|
          ensures AllWordChars(r[k])
        {
          assert r[k] == rest[k];
        }
      }
    }
  }

  /** Every character of every token is a character of `s`. */
  lemma {:induction false} SplitTokensFromInput(s: string)
    ensures forall k, i :: 0 <= k < |Split(s)| && 0 <= i < |Split(s)[k]| ==> Split(s)[k][i] in s
    decreases |s|
  {
    if s != [] {
      var rest := Split(s[1..]);
      SplitTokensFromInput(s[1..]);
      var r := Split(s);
      forall k, i | 0 <= k < |r| && 0 <= i < |r[k]|
        ensures r[k][i] in s
      {
        var c := r[k][i];
        if IsWordChar(s[0]) && k == 0 && i == 0 {
          assert c == s[0];
        } else {
          assert c in s[1..] by {
            if IsWordChar(s[0]) {
              if k == 0 {
                assert c == rest[0][i - 1];
              } else {
                assert c == rest[k][i];
              }
            } else if s[1..] != [] && !IsWordChar(s[1]) {
              assert c == rest[k][i];
            } else {
              assert c == rest[k - 1][i];
            }
          }
        }
      }
    }
  }

  /** Joining the tokens gives back exactly the word characters of `s`: only separators are lost. */
  lemma {:induction false} SplitKeepsWordChars(s: string)
    ensures Concat(Split(s)) == WordChars(s)
    decreases |s|
  {
    if s == [] {
      assert Concat([""]) == "" + Concat([]);
    } else {
      var rest := Split(s[1..]);
      SplitKeepsWordChars(s[1..]);
      assert Concat(rest) == rest[0] + Concat(rest[1..]);
      var r := Split(s);
      if IsWordChar(s[0]) {
        assert r[0] == [s[0]] + rest[0] && r[1..] == rest[1..];
      } else if !(s[1..] != [] && !IsWordChar(s[1])) {
        assert r[0] == "" && r[1..] == rest;
      }
    }
  }

  /** The first token is empty exactly when `s` is empty or starts with a separator. */
  lemma {:induction false} SplitFirstToken(s: string)
    ensures Split(s)[0] == "" <==> s == [] || !IsWordChar(s[0])
    decreases |s|
  {
    if s != [] && !IsWordChar(s[0]) && s[1..] != [] && !IsWordChar(s[1]) {
      SplitFirstToken(s[1..]);
    }
  }

  /** A string that starts with a separator yields at least two tokens. */
  lemma {:induction false} SplitAtSeparator(s: string)
    requires s != [] && !IsWordChar(s[0])
    ensures |Split(s)| >= 2
    decreases |s|
  {
    if s[1..] != [] && !IsWordChar(s[1]) {
      SplitAtSeparator(s[1..]);
    }
  }

  /** The last token is empty exactly when `s` is empty or ends with a separator. */
  lemma {:induction false} SplitLastToken(s: string)
    ensures Split(s)[|Split(s)| - 1] == "" <==> s == [] || !IsWordChar(s[|s| - 1])
    decreases |s|
  {
    if s != [] {
      var tail := s[1..];
      var rest := Split(tail);
      SplitLastToken(tail);
      if tail != [] {
        assert tail[|tail| - 1] == s[|s| - 1];
        if IsWordChar(s[0]) && |rest| == 1 {
          SplitFirstToken(tail);
          if !IsWordChar(tail[0]) {
            SplitAtSeparator(tail);
          }
        }
      }
    }
  }

  /** No token strictly between the first and the last is empty. */
  lemma {:induction false} SplitInnerTokens(s: string)
    ensures forall k :: 0 < k < |Split(s)| - 1 ==> Split(s)[k] != ""
    decreases |s|
  {
    if s != [] {
      var tail := s[1..];
      var rest := Split(tail);
      SplitInnerTokens(tail);
      var r := Split(s);
      if IsWordChar(s[0]) {
        forall k | 0 < k < |r| - 1
          ensures r[k] != ""
        {
          assert r[k] == rest[k];
        }
      } else if !(tail != [] && !IsWordChar(tail[0])) {
        SplitFirstToken(tail);
        forall k | 0 < k < |r| - 1
          ensures r[k] != ""
        {
          assert r[k] == rest[k - 1];
        }
      }
    }
  }

  /**
   * Where empty tokens can occur: `""` is a token exactly when `s` is empty,
   * starts with a separator or ends with one.
   */
  lemma SplitShape(s: string)
    ensures "" in Split(s) <==> s == [] || !IsWordChar(s[0]) || !IsWordChar(s[|s| - 1])
  {
    SplitFirstToken(s);
    SplitLastToken(s);
    SplitInnerTokens(s);
    var r := Split(s);
    if "" in r {
      var k :| 0 <= k < |r| && r[k] == "";
    }
  }

  /** Tokens of the backend: lower-case word characters, empty ones only at the ends. */
  lemma {:induction false} TokenizeShape(s: string)
    ensures forall k, i :: 0 <= k < |Tokenize(s)| && 0 <= i < |Tokenize(s)[k]| ==>
      IsWordChar(Tokenize(s)[k][i]) && !IsUpper(Tokenize(s)[k][i])
    ensures "" in Tokenize(s) <==> s == [] || !IsWordChar(s[0]) || !IsWordChar(s[|s| - 1])
  {
    var low := Lower(s);
    SplitTokensAreWords(low);
    SplitTokensFromInput(low);
    SplitShape(low);
    var t := Tokenize(s);
    forall k, i | 0 <= k < |t| && 0 <= i < |t[k]|
      ensures IsWordChar(t[k][i]) && !IsUpper(t[k][i])
    {
      assert AllWordChars(t[k]);
      var j :| 0 <= j < |low| && low[j] == t[k][i];
    }
  }
}
