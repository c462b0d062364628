/**
 * The reserved-character escaping of the text-safe envelope: each newline,
 * double quote and semicolon is replaced by a sentinel token, a word written
 * ten times, and the tokens are turned back into characters on the way in.
 */
module Escaping {
  import opened Strings

  /** How many times each sentinel word is repeated. */
  const Repetitions: nat := 10

  predicate Reserved(c: char) {
    c == '\n' || c == '"' || c == ';'
  }

  /** The sentinel word that stands for a reserved character. */
  function Word(c: char): (w: string)
    requires Reserved(c)
    ensures |w| >= 5
  {
    if c == '\n' then "newline" else if c == '"' then "quote" else "semicolon"
  }

  /** The sentinel token of a reserved character: its word written ten times. */
  function Token(c: char): (t: string)
    requires Reserved(c)
    ensures |t| == Repetitions * |Word(c)|
  {
    RepeatLength(Word(c), Repetitions);
    Repeat(Word(c), Repetitions)
  }

  /** Builds a sentinel token: `w` appended `n` times to an empty builder (nothing for n <= 0). */
  method Times(w: string, n: int) returns (r: string)
    ensures r == Repeat(w, if n < 0 then 0 else n)
    ensures |r| == (if n < 0 then 0 else n) * |w|
  {
    var builder := "";
    var i := 0;
    while i < n
      invariant 0 <= i <= (if n < 0 then 0 else n)
      invariant builder == Repeat(w, i)
    {
      RepeatSnoc(w, i);
      builder := builder + w;
      i := i + 1;
    }
    r := builder;
    RepeatLength(w, i);
  }

  /** The replace chain of serialization: newline, then quote, then semicolon. */
  function Escape(s: string): string {
    ReplaceAll(ReplaceAll(ReplaceAll(s, "\n", Token('\n')), "\"", Token('"')), ";", Token(';'))
  }

  /** The replace chain of deserialization: semicolon, then quote, then newline tokens. */
  function Unescape(s: string): string {
    ReplaceAll(ReplaceAll(ReplaceAll(s, Token(';'), ";"), Token('"'), "\""), Token('\n'), "\n")
  }

  // ----- An intermediate view: the string after k of the three unescape passes -----

  /** The character whose token the k-th unescape pass turns back. */
  function StageChar(k: nat): (c: char)
    requires k < 3
    ensures Reserved(c)
  {
    if k == 0 then ';' else if k == 1 then '"' else '\n'
  }

  /** Whether `c` is still written as its token after k unescape passes. */
  predicate Encoded(k: nat, c: char) {
    (k == 0 && c == ';') || (k <= 1 && c == '"') || (k <= 2 && c == '\n')
  }

  /** `s` with every character still encoded at stage k replaced by its token. */
  function Expand(s: string, k: nat): string {
    if s == [] then []
    else (if Encoded(k, s[0]) then Token(s[0]) else [s[0]]) + Expand(s[1..], k)
  }

  lemma {:induction false} ExpandAppend(a: string, b: string, k: nat)
    ensures Expand(a + b, k) == Expand(a, k) + Expand(b, k)
  {
    if a == [] {
      assert a + b == b;
    } else {
      assert (a + b)[0] == a[0];
      assert (a + b)[1..] == a[1..] + b;
      ExpandAppend(a[1..], b, k);
    }
  }

  /** With no character encoded at stage k, the expansion is the string itself. */
  lemma {:induction false} ExpandNothing(s: string, k: nat)
    requires forall i :: 0 <= i < |s| ==> !Encoded(k, s[i])
    ensures Expand(s, k) == s
  {
    if s != [] {
      ExpandNothing(s[1..], k);
      assert [s[0]] + s[1..] == s;
    }
  }

  lemma {:induction false} TokenStart(c: char)
    requires Reserved(c)
    ensures |Token(c)| >= 2 * |Word(c)|
    ensures Token(c)[..2 * |Word(c)|] == Word(c) + Word(c)
    ensures Token(c)[..|Word(c)|] == Word(c)
  {
    var w := Word(c);
    assert Token(c) == w + (w + Repeat(w, 8));
  }

  lemma {:induction false} TokenChars(c: char, x: char)
    requires Reserved(c) && x in Token(c)
    ensures x in Word(c)
  {
    RepeatChars(Word(c), Repetitions, x);
  }

  /** No token contains a reserved character. */
  lemma {:induction false} TokenNotReserved(c: char, x: char)
    requires Reserved(c) && x in Token(c)
    ensures !Reserved(x)
  {
    TokenChars(c, x);
  }

  lemma {:induction false} ExpandNotReserved(s: string)
    ensures forall x :: x in Expand(s, 0) ==> !Reserved(x)
  {
    if s != [] {
      ExpandNotReserved(s[1..]);
      if Reserved(s[0]) {
        forall x | x in Token(s[0]) ensures !Reserved(x) {
          TokenNotReserved(s[0], x);
        }
      }
    }
  }

  /** The three replacements of `Escape` together encode every reserved character at once. */
  lemma {:induction false} EscapeIsExpand(s: string)
    ensures Escape(s) == Expand(s, 0)
  {
    ReplaceSingleChar(s, '\n', Token('\n'));
    var s1 := Subst(s, '\n', Token('\n'));
    ReplaceSingleChar(s1, '"', Token('"'));
    var s2 := Subst(s1, '"', Token('"'));
    ReplaceSingleChar(s2, ';', Token(';'));
    SubstChain(s);
  }

  lemma {:induction false} SubstChain(s: string)
    ensures Subst(Subst(Subst(s, '\n', Token('\n')), '"', Token('"')), ';', Token(';')) == Expand(s, 0)
  {
    if s != [] {
      var c := s[0];
      SubstChain(s[1..]);
      var e1 := if c == '\n' then Token('\n') else [c];
      var r1 := Subst(s[1..], '\n', Token('\n'));
      assert Subst(s, '\n', Token('\n')) == e1 + r1;
      SubstAppend(e1, r1, '"', Token('"'));
      if '"' in Token('\n') { TokenNotReserved('\n', '"'); }
      var e2 := Subst(e1, '"', Token('"'));
      assert e2 == if c == '\n' then Token('\n') else if c == '"' then Token('"') else [c];
      SubstAppend(e2, Subst(r1, '"', Token('"')), ';', Token(';'));
      if ';' in Token('\n') { TokenNotReserved('\n', ';'); }
      if ';' in Token('"') { TokenNotReserved('"', ';'); }
      var e3 := Subst(e2, ';', Token(';'));
      assert e3 == if Reserved(c) then Token(c) else [c];
    }
  }

  /** The output of `Escape` contains no newline, double quote or semicolon. */
  lemma {:induction false} EscapeRemovesReserved(s: string)
    ensures forall x :: x in Escape(s) ==> !Reserved(x)
  {
    EscapeIsExpand(s);
    ExpandNotReserved(s);
  }

  /** `Escape` leaves a string unchanged exactly when it has no reserved character. */
  lemma {:induction false} EscapeIdentity(s: string)
    ensures Escape(s) == s <==> forall i :: 0 <= i < |s| ==> !Reserved(s[i])
  {
    EscapeIsExpand(s);
    EscapeRemovesReserved(s);
    if forall i :: 0 <= i < |s| ==> !Reserved(s[i]) {
      ExpandNothing(s, 0);
    }
  }

  // ----- Unescape -----

  /** Shifted against itself or another sentinel word, no word lines up with a token's start. */
  lemma {:induction false} WordsMisaligned(r: char, c: char, o: nat)
    requires Reserved(r) && Reserved(c) && 0 < o < |Word(r)|
    ensures (Word(r) + Word(r))[o] != Word(c)[0]
         || (Word(r) + Word(r))[o + 1] != Word(c)[1]
         || (Word(r) + Word(r))[o + 2] != Word(c)[2]
  {
  }

  /**
   * At stage k, an occurrence of the stage's token in the expansion of a
   * string that does not contain the stage's word can only start at a
   * character that is itself the stage's reserved character. `o` is how much
   * of the word has already been matched by earlier characters.
   */
  lemma {:induction false} FirstMatch(s: string, k: nat, o: nat)
    requires k < 3 && o < |Word(StageChar(k))|
    requires !Contains(Word(StageChar(k))[..o] + s, Word(StageChar(k)))
    requires StartsWith(Word(StageChar(k))[..o] + Expand(s, k), Token(StageChar(k)))
    ensures o == 0 && |s| > 0 && s[0] == StageChar(k)
  {
    var r := StageChar(k);
    var w := Word(r);
    var p := Token(r);
    TokenStart(r);
    if s != [] {
      var c := s[0];
      var y := Expand(s[1..], k);
      if Encoded(k, c) {
        assert Expand(s, k) == Token(c) + y;
        TokenMatchStart(r, c, o, y);
      } else {
        assert Expand(s, k) == [c] + y;
        assert s == [c] + s[1..];
        LiteralStep(w, o, c, s[1..], y, p);
        if o + 1 == |w| {
          assert w[..o + 1] == w;
          ContainsPrefix(w[..o] + s, w);
        } else {
          FirstMatch(s[1..], k, o + 1);
        }
      }
    }
  }

  /** A copied character inside an occurrence extends the matched part of the word by one. */
  lemma {:induction false} LiteralStep(w: string, o: nat, c: char, s: string, y: string, p: string)
    requires o < |w| <= |p| && p[..|w|] == w
    requires StartsWith(w[..o] + ([c] + y), p)
    ensures c == w[o]
    ensures w[..o] + ([c] + s) == w[..o + 1] + s
    ensures w[..o] + ([c] + y) == w[..o + 1] + y
  {
    var x := w[..o] + ([c] + y);
    assert x[o] == p[o] == w[o];
    assert w[..o] + [c] == w[..o + 1];
    assert w[..o] + ([c] + s) == (w[..o] + [c]) + s;
    assert x == (w[..o] + [c]) + y;
  }

  /**
   * A token can follow a partly matched sentinel word inside an occurrence
   * of a token only if nothing of the word was matched and it is that token.
   */
  lemma {:induction false} TokenMatchStart(r: char, c: char, o: nat, y: string)
    requires Reserved(r) && Reserved(c) && o < |Word(r)|
    requires StartsWith(Word(r)[..o] + (Token(c) + y), Token(r))
    ensures o == 0 && c == r
  {
    var w := Word(r);
    var p := Token(r);
    var t := Token(c);
    var x := w[..o] + (t + y);
    TokenStart(r);
    TokenStart(c);
    assert x[..|p|] == p;
    assert x[o] == t[0] == Word(c)[0];
    if o > 0 {
      assert x[o + 1] == t[1] == Word(c)[1];
      assert x[o + 2] == t[2] == Word(c)[2];
      assert p[o] == (w + w)[o] && p[o + 1] == (w + w)[o + 1] && p[o + 2] == (w + w)[o + 2];
      WordsMisaligned(r, c, o);
    } else {
      assert p[0] == w[0];
    }
  }

  /** The first letter of the stage's word occurs in no other token still encoded at that stage. */
  lemma {:induction false} OtherTokenSkipped(k: nat, c: char)
    requires k < 3 && Encoded(k, c) && c != StageChar(k)
    ensures Word(StageChar(k))[0] !in Token(c)
  {
    if Word(StageChar(k))[0] in Token(c) {
      TokenChars(c, Word(StageChar(k))[0]);
    }
  }

  /**
   * The k-th unescape pass, applied to a stage-k expansion of a string that
   * does not contain the stage's word, yields the stage-(k + 1) expansion.
   */
  lemma {:induction false} UnescapeStep(s: string, k: nat)
    requires k < 3 && !Contains(s, Word(StageChar(k)))
    ensures ReplaceAll(Expand(s, k), Token(StageChar(k)), [StageChar(k)]) == Expand(s, k + 1)
  {
    if s != [] {
      var r := StageChar(k);
      var p := Token(r);
      var c := s[0];
      var rest := Expand(s[1..], k);
      if Contains(s[1..], Word(r)) {
        ContainsTail(s, Word(r));
      }
      UnescapeStep(s[1..], k);
      TokenStart(r);
      if c == r {
        assert Expand(s, k) == p + rest;
        ReplaceAtFront(rest, p, [r]);
      } else if Encoded(k, c) {
        assert Expand(s, k) == Token(c) + rest;
        OtherTokenSkipped(k, c);
        assert p[0] == Word(r)[0];
        ReplaceSkipsPrefix(Token(c), rest, p, [r]);
      } else {
        assert Expand(s, k) == [c] + rest;
        if StartsWith([c] + rest, p) {
          assert Word(r)[..0] + s == s;
          assert Word(r)[..0] + Expand(s, k) == Expand(s, k);
          FirstMatch(s, k, 0);
        }
        ReplaceCopiesChar(c, rest, p, [r]);
      }
    }
  }

  /**
   * Unescaping undoes escaping for every string in which none of the three
   * sentinel words occurs, whatever its reserved characters and their order.
   */
  lemma {:induction false} EscapeRoundTrip(s: string)
    requires !Contains(s, "newline") && !Contains(s, "quote") && !Contains(s, "semicolon")
    ensures Unescape(Escape(s)) == s
  {
    EscapeIsExpand(s);
    UnescapeExpansion(s);
  }

  /** The three unescape passes take the full expansion back to the string, one stage at a time. */
  lemma {:induction false} UnescapeExpansion(s: string)
    requires !Contains(s, "newline") && !Contains(s, "quote") && !Contains(s, "semicolon")
    ensures Unescape(Expand(s, 0)) == s
  {
    UnescapeStep(s, 0);
    var e1 := Expand(s, 1);
    assert ReplaceAll(Expand(s, 0), Token(';'), ";") == e1;
    UnescapeStep(s, 1);
    var e2 := Expand(s, 2);
    assert ReplaceAll(e1, Token('"'), "\"") == e2;
    UnescapeStep(s, 2);
    assert ReplaceAll(e2, Token('\n'), "\n") == Expand(s, 3);
    ExpandNothing(s, 3);
  }

  /** A string with no complete token is left unchanged by `Unescape`. */
  lemma {:induction false} UnescapeWithoutTokens(s: string)
    requires !Contains(s, Token(';')) && !Contains(s, Token('"')) && !Contains(s, Token('\n'))
    ensures Unescape(s) == s
  {
    ReplaceAbsent(s, Token(';'), ";");
    ReplaceAbsent(s, Token('"'), "\"");
    ReplaceAbsent(s, Token('\n'), "\n");
  }

  /** The first character of a token is the first character of its word. */
  lemma {:induction false} TokenLead(c: char)
    requires Reserved(c)
    ensures |Token(c)| > 0 && Token(c)[0] == Word(c)[0]
  {
    TokenStart(c);
    assert Token(c)[0] == Token(c)[..|Word(c)|][0];
  }

  /** A newline token is 70 characters long, all of them letters of `"newline"`. */
  lemma {:induction false} NewlineTokenShape()
    ensures |Token('\n')| == 70
    ensures forall i :: 0 <= i < |Token('\n')| ==> Token('\n')[i] in "newline"
  {
    RepeatLength("newline", Repetitions);
    forall i | 0 <= i < |Token('\n')| ensures Token('\n')[i] in "newline" {
      TokenChars('\n', Token('\n')[i]);
    }
  }

  /** Repeated `"newline"` words are letters of `"newline"`, seven per word. */
  lemma {:induction false} NewlineWordsShape(m: nat)
    ensures |Repeat("newline", m)| == 7 * m
    ensures forall i :: 0 <= i < |Repeat("newline", m)| ==> Repeat("newline", m)[i] in "newline"
  {
    RepeatLength("newline", m);
    forall i | 0 <= i < |Repeat("newline", m)| ensures Repeat("newline", m)[i] in "newline" {
      RepeatChars("newline", m, Repeat("newline", m)[i]);
    }
  }

  /**
   * j complete newline tokens followed by a tail shorter than a token, with
   * no 's' or 'q' to start another token, unescape to j newlines followed by
   * the tail: only complete runs are replaced, from the left, without overlap.
   */
  lemma {:induction false} UnescapeNewlineRun(j: nat, tail: string)
    requires |tail| < |Token('\n')| && 's' !in tail && 'q' !in tail
    ensures Unescape(Repeat(Token('\n'), j) + tail) == Repeat("\n", j) + tail
  {
    var t := Token('\n');
    var s := Repeat(t, j) + tail;
    NewlineTokenShape();
    forall x | x in s ensures x != 's' && x != 'q' {
      if x in Repeat(t, j) {
        RepeatChars(t, j, x);
      }
    }
    TokenLead(';');
    TokenLead('"');
    ReplaceChainOnRuns(Token(';'), ";", Token('"'), "\"", t, "\n", j, tail);
  }

  /** One newline token followed by such a tail unescapes to a newline followed by the tail. */
  lemma {:induction false} UnescapeOneToken(tail: string)
    requires |tail| < |Token('\n')| && 's' !in tail && 'q' !in tail
    ensures Unescape(Token('\n') + tail) == "\n" + tail
  {
    var t := Token('\n');
    assert Repeat(t, 1) == t + [] == t;
    UnescapeNewlineRun(1, tail);
    assert Repeat("\n", 1) == "\n" + [] == "\n";
  }

  /** The token is ten words, so k tokens are 10 * k words. */
  lemma {:induction false} NewlineTokens(k: nat)
    ensures Repeat(Token('\n'), k) == Repeat("newline", Repetitions * k)
  {
    if k > 0 {
      NewlineTokens(k - 1);
      RepeatAdd("newline", Repetitions, Repetitions * (k - 1));
      assert Repetitions * k == Repetitions + Repetitions * (k - 1);
    }
  }

  /**
   * A run of n `"newline"` words unescapes to one newline per complete group
   * of ten words, followed by the n % 10 words left over. For n = 9 the run
   * is unchanged, for n = 11 it becomes a newline and one word, for n = 20
   * two newlines.
   */
  lemma {:induction false} UnescapeNewlineWords(n: nat)
    ensures Unescape(Repeat("newline", n)) == Repeat("\n", n / Repetitions) + Repeat("newline", n % Repetitions)
  {
    var j, m := n / Repetitions, n % Repetitions;
    var tail := Repeat("newline", m);
    NewlineTokens(j);
    RepeatAdd("newline", Repetitions * j, m);
    assert Repeat("newline", n) == Repeat(Token('\n'), j) + tail;
    NewlineWordsShape(m);
    NewlineTokenShape();
    UnescapeNewlineRun(j, tail);
  }

  /** Repeated `"newline"` words hold no reserved character. */
  lemma {:induction false} NewlineWordsPlain(n: nat, k: nat)
    ensures forall i :: 0 <= i < |Repeat("newline", n)| ==> !Encoded(k, Repeat("newline", n)[i])
  {
    NewlineWordsShape(n);
  }

  /** A string with nothing to expand, followed by a reserved character, expands to the string and that character's token. */
  lemma {:induction false} ExpandPlainThenReserved(u: string, c: char)
    requires Reserved(c)
    requires forall i :: 0 <= i < |u| ==> !Encoded(0, u[i])
    ensures Expand(u + [c], 0) == u + Token(c)
  {
    ExpandAppend(u, [c], 0);
    ExpandNothing(u, 0);
    assert [c][1..] == [];
  }

  /** m words and a newline escape to m + 10 words. */
  lemma {:induction false} EscapeWordsAndNewline(m: nat)
    ensures Escape(Repeat("newline", m) + "\n") == Repeat("newline", m + Repetitions)
  {
    var words := Repeat("newline", m);
    NewlineWordsPlain(m, 0);
    ExpandPlainThenReserved(words, '\n');
    EscapeIsExpand(words + ['\n']);
    RepeatAdd("newline", m, Repetitions);
  }

  /**
   * The word-freeness in `EscapeRoundTrip` is needed: for 0 < m < 10, m
   * `"newline"` words followed by a newline escape to m + 10 words, which
   * unescape to a newline followed by the m words, not to the original.
   */
  lemma {:induction false} EscapeRoundTripNeedsWordFree(m: nat)
    requires 0 < m < Repetitions
    ensures Unescape(Escape(Repeat("newline", m) + "\n")) == "\n" + Repeat("newline", m)
    ensures Unescape(Escape(Repeat("newline", m) + "\n")) != Repeat("newline", m) + "\n"
  {
    var s := Repeat("newline", m) + "\n";
    EscapeWordsAndNewline(m);
    UnescapeNewlineWords(m + Repetitions);
    assert (m + Repetitions) / Repetitions == 1 && (m + Repetitions) % Repetitions == m;
    assert Repeat("\n", 1) == "\n" + [];
    assert s[0] == Repeat("newline", m)[0] == 'n';
  }
}
