/**
 * The whitespace normaliser `_norm` that both site adapters define, word for
 * word: `None` and empty text give `None`; otherwise the text is split on
 * whitespace runs and re-joined with single spaces, and a result that is
 * then empty gives `None` as well.
 */
module Normalize {
  import opened Wrappers
  import opened Strings

  /** Every element is something `str.split()` could have produced. */
  predicate AllWords(ws: seq<string>) {
    forall i :: 0 <= i < |ws| ==> IsWord(ws[i])
  }

  /**
   * Text in normal form: non-empty, no space at either end, no whitespace
   * other than ' ', and never two spaces in a row.
   */
  predicate IsNormal(t: string) {
    && t != []
    && t[0] != ' '
    && t[|t| - 1] != ' '
    && (forall i :: 0 <= i < |t| && IsSpace(t[i]) ==> t[i] == ' ')
    && (forall i :: 0 <= i < |t| - 1 && t[i] == ' ' ==> t[i + 1] != ' ')
  }

  /** The non-whitespace characters of `s`, in order. */
  function NonSpace(s: string): string {
    if s == [] then [] else Kept(s[0]) + NonSpace(s[1..])
  }

  /** What `NonSpace` keeps of one character. */
  function Kept(c: char): string {
    if IsSpace(c) then [] else [c]
  }

  /** The concatenation of the pieces. */
  function Concat(ws: seq<string>): string {
    if ws == [] then [] else ws[0] + Concat(ws[1..])
  }

  /**
   * `_norm(s)`: `None` exactly for `None`, empty or all-whitespace input;
   * otherwise text in normal form that has the same words as the input.
   */
  function Norm(s: Option<string>): (r: Option<string>)
    ensures r.None? <==> (s.None? || AllSpace(s.value))
    ensures r.Some? ==> IsNormal(r.value) && Words(r.value) == Words(s.value)
  {
    if s.None? || s.value == "" then None
    else
      var ws := Words(s.value);
      WordsEmpty(s.value);
      WordsOfJoin(ws);
      JoinEmpty(ws);
      var t := JoinWith(" ", ws);
      if t == "" then None
      else
        JoinNormal(ws);
        Some(t)
  }

  // ------------------------------------------------------ words and joining

  /** `s.split()` is empty exactly when `s` is all whitespace. */
  lemma {:induction false} WordsEmpty(s: string)
    ensures Words(s) == [] <==> AllSpace(s)
    decreases |s|
  {
    if s != [] {
      if IsSpace(s[0]) {
        WordsEmpty(s[1..]);
        if AllSpace(s[1..]) {
          forall i | 0 <= i < |s| ensures IsSpace(s[i]) {
            if i > 0 { assert s[i] == s[1..][i - 1]; }
          }
        }
      } else {
        assert !IsSpace(s[0]);
      }
    }
  }

  /** Joining words with spaces gives "" only for no words. */
  lemma JoinEmpty(ws: seq<string>)
    requires AllWords(ws)
    ensures JoinWith(" ", ws) == "" <==> ws == []
  {
    if |ws| > 1 {
      assert IsWord(ws[0]);
      assert |JoinWith(" ", ws)| >= |ws[0]|;
    } else if |ws| == 1 {
      assert IsWord(ws[0]);
    }
  }

  /** A word followed by nothing or by whitespace is the first word. */
  lemma WordsPrefix(w: string, rest: string)
    requires IsWord(w)
    requires rest == [] || IsSpace(rest[0])
    ensures Words(w + rest) == [w] + Words(rest)
  {
    var s := w + rest;
    assert s[0] == w[0];
    var n := WordLength(s);
    assert forall i :: 0 <= i < |w| ==> s[i] == w[i];
    assert rest != [] ==> s[|w|] == rest[0];
    assert n == |w|;
    assert s[..n] == w && s[n..] == rest;
  }

  /** Joining words with single spaces gives text in normal form. */
  lemma {:induction false} JoinNormal(ws: seq<string>)
    requires AllWords(ws) && ws != []
    ensures IsNormal(JoinWith(" ", ws))
  {
    var w := ws[0];
    assert IsWord(w);
    if |ws| > 1 {
      var r := JoinWith(" ", ws[1..]);
      JoinNormal(ws[1..]);
      var t := w + " " + r;
      assert JoinWith(" ", ws) == t;
      assert forall i :: 0 <= i < |w| ==> t[i] == w[i];
      assert forall i :: |w| < i < |t| ==> t[i] == r[i - |w| - 1];
    }
  }

  /** Splitting a space-join of words gives back the words. */
  lemma {:induction false} WordsOfJoin(ws: seq<string>)
    requires AllWords(ws)
    ensures Words(JoinWith(" ", ws)) == ws
  {
    if |ws| == 1 {
      WordsPrefix(ws[0], "");
      assert ws[0] + "" == ws[0];
    } else if |ws| > 1 {
      var r := JoinWith(" ", ws[1..]);
      WordsOfJoin(ws[1..]);
      WordsPrefix(ws[0], " " + r);
      assert ws[0] + " " + r == ws[0] + (" " + r);
      assert (" " + r)[1..] == r;
      assert ws == [ws[0]] + ws[1..];
    }
  }

  /** Normal text without a space is a single word. */
  lemma NormalWithoutSpace(t: string)
    requires IsNormal(t) && ' ' !in t
    ensures IsWord(t)
  {
    forall i | 0 <= i < |t| ensures !IsSpace(t[i]) {
      assert t[i] != ' ';
    }
  }

  /** Normal text with a space is a word, a space, and normal text. */
  lemma NormalAtFirstSpace(t: string, p: nat)
    requires IsNormal(t) && p < |t| && t[p] == ' ' && ' ' !in t[..p]
    ensures 0 < p < |t| - 1
    ensures IsWord(t[..p]) && IsNormal(t[p + 1..])
    ensures t == t[..p] + " " + t[p + 1..]
  {
    NormalHead(t, p);
    NormalTail(t, p);
    SplitAround(t, p);
  }

  /** `t` is what comes before index `p`, the character at `p`, and what comes after. */
  lemma SplitAround(t: string, p: nat)
    requires p < |t|
    ensures t == t[..p] + [t[p]] + t[p + 1..]
  {
  }

  /** The text before the first space of normal text is a word. */
  lemma NormalHead(t: string, p: nat)
    requires IsNormal(t) && 0 < p < |t| && ' ' !in t[..p]
    ensures IsWord(t[..p])
  {
    var w := t[..p];
    forall i | 0 <= i < |w| ensures !IsSpace(w[i]) {
      assert w[i] == t[i] && w[i] != ' ';
    }
  }

  /** The text after a space inside normal text is normal. */
  lemma NormalTail(t: string, p: nat)
    requires IsNormal(t) && p < |t| - 1 && t[p] == ' '
    ensures IsNormal(t[p + 1..])
  {
    var r := t[p + 1..];
    assert forall i :: 0 <= i < |r| ==> r[i] == t[p + 1 + i];
  }

  /** Text already in normal form is the space-join of its own words. */
  lemma {:induction false} NormalIsJoinOfWords(t: string)
    requires IsNormal(t)
    ensures JoinWith(" ", Words(t)) == t
    decreases |t|
  {
    if ' ' !in t {
      NormalWithoutSpace(t);
      WordsPrefix(t, "");
      assert t + "" == t;
    } else {
      var p := IndexOf(t, ' ');
      NormalAtFirstSpace(t, p);
      var w, r := t[..p], t[p + 1..];
      assert t == w + (" " + r);
      WordsPrefix(w, " " + r);
      assert (" " + r)[1..] == r;
      NormalIsJoinOfWords(r);
      WordsEmpty(r);
      assert !IsSpace(r[0]);
      var ws := Words(r);
      assert ([w] + ws)[1..] == ws;
    }
  }

  /** The non-whitespace characters of `s` are its words, concatenated. */
  lemma {:induction false} NonSpaceIsWords(s: string)
    ensures NonSpace(s) == Concat(Words(s))
    decreases |s|
  {
    if s != [] {
      if IsSpace(s[0]) {
        NonSpaceIsWords(s[1..]);
        assert NonSpace(s) == NonSpace(s[1..]);
        assert Words(s) == Words(s[1..]);
      } else {
        var n := WordLength(s);
        var w, rest := s[..n], s[n..];
        FirstWordStep(s);
        NonSpaceIsWords(rest);
        ConcatCons(w, Words(rest));
        calc {
          NonSpace(s);
          w + NonSpace(rest);
          w + Concat(Words(rest));
          Concat([w] + Words(rest));
          Concat(Words(s));
        }
      }
    }
  }

  /** At the start of a word, both views take that word off the front. */
  lemma FirstWordStep(s: string)
    requires s != [] && !IsSpace(s[0])
    ensures var n := WordLength(s);
      && NonSpace(s) == s[..n] + NonSpace(s[n..])
      && Words(s) == [s[..n]] + Words(s[n..])
  {
    var n := WordLength(s);
    var w, rest := s[..n], s[n..];
    assert s == w + rest;
    assert NoSpace(w) by {
      assert forall i :: 0 <= i < |w| ==> w[i] == s[i];
    }
    NonSpaceAppend(w, rest);
    NonSpaceOfWord(w);
  }

  lemma ConcatCons(w: string, ws: seq<string>)
    ensures Concat([w] + ws) == w + Concat(ws)
  {
    assert ([w] + ws)[1..] == ws;
  }

  lemma {:induction false} NonSpaceAppend(a: string, b: string)
    ensures NonSpace(a + b) == NonSpace(a) + NonSpace(b)
  {
    if a == [] {
      assert a + b == b;
    } else {
      assert (a + b)[0] == a[0] && (a + b)[1..] == a[1..] + b;
      NonSpaceAppend(a[1..], b);
    }
  }

  lemma {:induction false} NonSpaceOfWord(w: string)
    requires NoSpace(w)
    ensures NonSpace(w) == w
  {
    if w != [] {
      assert !IsSpace(w[0]);
      assert NoSpace(w[1..]) by {
        forall i | 0 <= i < |w[1..]| ensures !IsSpace(w[1..][i]) {
          assert w[1..][i] == w[i + 1];
        }
      }
      NonSpaceOfWord(w[1..]);
    }
  }

  // ----------------------------------------------------- properties of _norm

  /** `_norm` keeps the non-whitespace characters of its input, in order. */
  lemma NormKeepsCharacters(s: string)
    requires Norm(Some(s)).Some?
    ensures NonSpace(Norm(Some(s)).value) == NonSpace(s)
  {
    NonSpaceIsWords(s);
    NonSpaceIsWords(Norm(Some(s)).value);
  }

  /** Text in normal form is a fixed point of `_norm`. */
  lemma NormFixesNormal(t: string)
    requires IsNormal(t)
    ensures Norm(Some(t)) == Some(t)
  {
    NormalIsJoinOfWords(t);
  }

  /** `_norm(s)` is the one normal-form text with the same words as `s`. */
  lemma NormIsUnique(s: string, t: string)
    requires IsNormal(t) && Words(t) == Words(s)
    ensures Norm(Some(s)) == Some(t)
  {
    NormalIsJoinOfWords(t);
    WordsEmpty(s);
    WordsEmpty(t);
  }

  /** `_norm(_norm(s)) == _norm(s)`. */
  lemma NormIdempotent(s: Option<string>)
    ensures Norm(Norm(s)) == Norm(s)
  {
    if Norm(s).Some? {
      NormFixesNormal(Norm(s).value);
    }
  }
}
