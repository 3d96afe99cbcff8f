/**
 * The scratch-pad CNPJ formatter (`formatar_cnpjs_texto`).
 *
 * The source rewrites text with the pattern `\b(\d{2})(\d{3})(\d{3})(\d{4})(\d{2})\b`
 * and the replacement `\1.\2.\3/\4-\5`: every run of exactly fourteen digits that
 * has a word boundary on both sides becomes the punctuated Brazilian company
 * registration number `AA.BBB.CCC/DDDD-EE`.
 *
 * Digits, word characters and the boundary test are the ASCII ones:
 * a digit is '0'..'9', a word character is a letter, a digit or '_', and `\b`
 * holds where the word / non-word status changes.
 *
 * `Scan` follows the regular-expression engine (left to right; a match resumes
 * after the fourteen digits, a failed attempt copies one character).
 * `Tokenised` is an independent reference definition: it splits the text into
 * maximal word runs and single non-word characters and rewrites exactly the
 * words made of fourteen digits. The two are proved equal, and the properties
 * (pass-through, length, digits kept, idempotence) are proved about the reference.
 */
module CnpjFormat {

  /** Length of a raw (unpunctuated) CNPJ. */
  const CnpjDigits := 14

  predicate IsDigit(c: char) {
    '0' <= c <= '9'
  }

  /** ASCII `\w`: letter, digit or underscore. */
  predicate IsWordChar(c: char) {
    ('a' <= c <= 'z') || ('A' <= c <= 'Z') || IsDigit(c) || c == '_'
  }

  predicate AllDigits(s: string) {
    forall i :: 0 <= i < |s| ==> IsDigit(s[i])
  }

  predicate AllWordChars(s: string) {
    forall i :: 0 <= i < |s| ==> IsWordChar(s[i])
  }

  /** A word made of exactly fourteen digits. */
  predicate IsRawCnpj(w: string) {
    |w| == CnpjDigits && AllDigits(w)
  }

  /** The digits of `s`, in order. */
  function Digits(s: string): (r: string)
    ensures AllDigits(r)
    ensures |r| <= |s|
  {
    if s == [] then []
    else (if IsDigit(s[0]) then [s[0]] else []) + Digits(s[1..])
  }

  /** The replacement `\1.\2.\3/\4-\5` applied to the fourteen captured digits. */
  function Punctuate(w: string): (r: string)
    requires IsRawCnpj(w)
    ensures |r| == CnpjDigits + 4
  {
    w[..2] + "." + w[2..5] + "." + w[5..8] + "/" + w[8..12] + "-" + w[12..]
  }

  /**
   * The pattern matches at the start of `t`: the previous character (if any)
   * is not a word character (`afterWord` is false), fourteen digits follow, and
   * after them comes the end of the text or a non-word character.
   */
  predicate MatchesAt(t: string, afterWord: bool) {
    !afterWord && |t| >= CnpjDigits && AllDigits(t[..CnpjDigits])
    && (|t| == CnpjDigits || !IsWordChar(t[CnpjDigits]))
  }

  /**
   * The substitution as the regular-expression engine performs it over the rest
   * `t` of the text; `afterWord` records whether the character just before `t`
   * was a word character.
   */
  function Scan(t: string, afterWord: bool): string
    decreases |t|
  {
    if t == [] then []
    else if MatchesAt(t, afterWord) then
      Punctuate(t[..CnpjDigits]) + Scan(t[CnpjDigits..], true)
    else
      [t[0]] + Scan(t[1..], IsWordChar(t[0]))
  }

  /** `formatar_cnpjs_texto`: empty text gives the empty text, otherwise the substitution. */
  function FormatCnpjs(texto: string): string {
    if texto == "" then "" else Scan(texto, false)
  }

  // ---------------------------------------------------------------------------
  // Reference definition: tokens

  /** Length of the maximal run of word characters at the start of `t`. */
  function WordLen(t: string): (n: nat)
    ensures n <= |t|
    ensures AllWordChars(t[..n])
    ensures n == |t| || !IsWordChar(t[n])
  {
    if t == [] || !IsWordChar(t[0]) then 0 else 1 + WordLen(t[1..])
  }

  /** How one word is written back: punctuated when it is a raw CNPJ, unchanged otherwise. */
  function Rewrite(w: string): string {
    if IsRawCnpj(w) then Punctuate(w) else w
  }

  /** The text split into maximal words and single non-word characters, each word rewritten. */
  function Tokenised(t: string): string
    decreases |t|
  {
    if t == [] then []
    else if !IsWordChar(t[0]) then [t[0]] + Tokenised(t[1..])
    else
      var n := WordLen(t);
      Rewrite(t[..n]) + Tokenised(t[n..])
  }

  /** Number of words of `t` that are raw CNPJs, i.e. of rewritten runs. */
  function CountCnpjs(t: string): nat
    decreases |t|
  {
    if t == [] then 0
    else if !IsWordChar(t[0]) then CountCnpjs(t[1..])
    else
      var n := WordLen(t);
      (if IsRawCnpj(t[..n]) then 1 else 0) + CountCnpjs(t[n..])
  }

  // ---------------------------------------------------------------------------
  // Lemmas

  /** Concatenation is associative (stated once, used to keep larger proofs small). */
  lemma Assoc(a: string, b: string, c: string)
    ensures a + (b + c) == (a + b) + c
  {
  }

  /** A run of word characters ended by a non-word character or the end is the maximal run. */
  lemma {:induction false} WordLenExact(t: string, k: nat)
    requires k <= |t|
    requires AllWordChars(t[..k])
    requires k == |t| || !IsWordChar(t[k])
    ensures WordLen(t) == k
  {
    if k > 0 {
      assert IsWordChar(t[..k][0]);
      WordLenExact(t[1..], k - 1);
    }
  }

  /** Before a non-word character (or at the end) the boundary flag does not matter. */
  lemma ScanAfterBoundary(t: string)
    requires t == [] || !IsWordChar(t[0])
    ensures Scan(t, true) == Scan(t, false)
  {
  }

  /** A stretch of word characters without its first character is still one. */
  lemma WordCharsTail(t: string, n: nat)
    requires 0 < n <= |t| && AllWordChars(t[..n])
    ensures IsWordChar(t[0])
    ensures AllWordChars(t[1..][..n - 1])
  {
    assert t[..n][0] == t[0];
    var u := t[1..][..n - 1];
    forall i | 0 <= i < |u| ensures IsWordChar(u[i]) {
      assert u[i] == t[..n][i + 1];
    }
  }

  /** Inside a word no match can start: any stretch of word characters is copied unchanged. */
  lemma {:induction false} ScanCopiesWord(t: string, n: nat)
    requires n <= |t| && AllWordChars(t[..n])
    ensures Scan(t, true) == t[..n] + Scan(t[n..], true)
    decreases n
  {
    if n == 0 {
      assert t[..0] == [] && t[0..] == t;
    } else {
      var u := t[1..];
      WordCharsTail(t, n);
      assert Scan(t, true) == [t[0]] + Scan(u, true);
      ScanCopiesWord(u, n - 1);
      assert u[n - 1..] == t[n..];
      assert [t[0]] + u[..n - 1] == t[..n];
      Assoc([t[0]], u[..n - 1], Scan(t[n..], true));
    }
  }

  /** After a whole word the scan goes on as at a boundary. */
  lemma ScanInsideWord(t: string)
    ensures Scan(t, true) == t[..WordLen(t)] + Scan(t[WordLen(t)..], false)
  {
    var n := WordLen(t);
    ScanCopiesWord(t, n);
    ScanAfterBoundary(t[n..]);
  }

  /** At a boundary, a non-word character is copied by both definitions. */
  lemma StepNonWord(t: string)
    requires t != [] && !IsWordChar(t[0])
    ensures Scan(t, false) == [t[0]] + Scan(t[1..], false)
    ensures Tokenised(t) == [t[0]] + Tokenised(t[1..])
  {
    assert !MatchesAt(t, false) by {
      if |t| >= CnpjDigits { assert t[..CnpjDigits][0] == t[0]; }
    }
  }

  /** At a boundary, a word of fourteen digits is punctuated by both definitions. */
  lemma StepRawWord(t: string)
    requires t != [] && IsWordChar(t[0]) && IsRawCnpj(t[..WordLen(t)])
    ensures Scan(t, false) == Punctuate(t[..CnpjDigits]) + Scan(t[CnpjDigits..], false)
    ensures Tokenised(t) == Punctuate(t[..CnpjDigits]) + Tokenised(t[CnpjDigits..])
  {
    assert MatchesAt(t, false);
    ScanAfterBoundary(t[CnpjDigits..]);
  }

  /** A match at a boundary means the whole word there is a raw CNPJ. */
  lemma MatchIsRawWord(t: string)
    requires MatchesAt(t, false)
    ensures IsRawCnpj(t[..WordLen(t)])
  {
    assert AllWordChars(t[..CnpjDigits]) by {
      forall i | 0 <= i < CnpjDigits ensures IsWordChar(t[..CnpjDigits][i]) {
        assert IsDigit(t[..CnpjDigits][i]);
      }
    }
    WordLenExact(t, CnpjDigits);
  }

  /** The word after its first character is the rest of the word. */
  lemma WordTail(t: string)
    requires t != [] && IsWordChar(t[0])
    ensures WordLen(t[1..]) == WordLen(t) - 1
    ensures [t[0]] + t[1..][..WordLen(t[1..])] == t[..WordLen(t)]
    ensures t[1..][WordLen(t[1..])..] == t[WordLen(t)..]
  {
    var n := WordLen(t);
    assert t[1..][..n - 1] == t[1..n];
    assert t[1..][n - 1..] == t[n..];
    assert [t[0]] + t[1..n] == t[..n];
  }

  /** At a boundary, any other word is copied by the scan. */
  lemma StepOtherWord(t: string)
    requires t != [] && IsWordChar(t[0]) && !IsRawCnpj(t[..WordLen(t)])
    ensures Scan(t, false) == t[..WordLen(t)] + Scan(t[WordLen(t)..], false)
  {
    if MatchesAt(t, false) {
      MatchIsRawWord(t);
      assert false;
    }
    assert Scan(t, false) == [t[0]] + Scan(t[1..], true);
    ScanInsideWord(t[1..]);
    WordTail(t);
    var m := WordLen(t[1..]);
    Assoc([t[0]], t[1..][..m], Scan(t[1..][m..], false));
  }

  /** The regular-expression scan equals the token-wise reference definition. */
  lemma {:induction false} ScanIsTokenised(t: string)
    ensures Scan(t, false) == Tokenised(t)
    decreases |t|
  {
    if t == [] {
    } else if !IsWordChar(t[0]) {
      StepNonWord(t);
      ScanIsTokenised(t[1..]);
    } else if IsRawCnpj(t[..WordLen(t)]) {
      StepRawWord(t);
      ScanIsTokenised(t[CnpjDigits..]);
    } else {
      StepOtherWord(t);
      ScanIsTokenised(t[WordLen(t)..]);
    }
  }

  /** `formatar_cnpjs_texto` rewrites exactly the fourteen-digit words and nothing else. */
  lemma FormatIsTokenised(texto: string)
    ensures FormatCnpjs(texto) == Tokenised(texto)
  {
    ScanIsTokenised(texto);
  }

  /** Empty input gives empty output. */
  lemma FormatEmpty()
    ensures FormatCnpjs("") == ""
  {
  }

  /** Each rewritten run grows by its four separators; nothing else changes length. */
  lemma {:induction false} TokenisedLength(t: string)
    ensures |Tokenised(t)| == |t| + 4 * CountCnpjs(t)
    decreases |t|
  {
    if t == [] {
    } else if !IsWordChar(t[0]) {
      TokenisedLength(t[1..]);
    } else {
      var n := WordLen(t);
      TokenisedLength(t[n..]);
    }
  }

  /** Output length is input length plus four per rewritten run. */
  lemma FormatLength(texto: string)
    ensures |FormatCnpjs(texto)| == |texto| + 4 * CountCnpjs(texto)
  {
    FormatIsTokenised(texto);
    TokenisedLength(texto);
  }

  lemma {:induction false} DigitsAppend(a: string, b: string)
    ensures Digits(a + b) == Digits(a) + Digits(b)
    decreases |a|
  {
    if a == [] {
      assert a + b == b;
    } else {
      assert (a + b)[1..] == a[1..] + b;
      DigitsAppend(a[1..], b);
      Assoc(if IsDigit(a[0]) then [a[0]] else [], Digits(a[1..]), Digits(b));
    }
  }

  lemma {:induction false} DigitsOfDigits(s: string)
    requires AllDigits(s)
    ensures Digits(s) == s
    decreases |s|
  {
    if s != [] {
      DigitsOfDigits(s[1..]);
    }
  }

  /** A separator followed by a group of digits contributes just that group. */
  lemma DigitsThenGroup(x: string, c: char, g: string)
    requires !IsDigit(c) && AllDigits(g)
    ensures Digits(x + [c] + g) == Digits(x) + g
  {
    DigitsAppend(x, [c]);
    DigitsAppend(x + [c], g);
    DigitsOfDigits(g);
    assert Digits(x) + [] == Digits(x);
  }

  /** The punctuated form has its separators at fixed places and keeps all fourteen digits, in order. */
  lemma PunctuateShape(w: string)
    requires IsRawCnpj(w)
    ensures var r := Punctuate(w);
            r[2] == '.' && r[6] == '.' && r[10] == '/' && r[15] == '-'
    ensures Digits(Punctuate(w)) == w
  {
    var a, b, c, d, e := w[..2], w[2..5], w[5..8], w[8..12], w[12..];
    DigitsOfDigits(a);
    var p1 := a + "." + b;
    DigitsThenGroup(a, '.', b);
    var p2 := p1 + "." + c;
    DigitsThenGroup(p1, '.', c);
    var p3 := p2 + "/" + d;
    DigitsThenGroup(p2, '/', d);
    DigitsThenGroup(p3, '-', e);
    assert Digits(Punctuate(w)) == a + b + c + d + e;
    assert a + b + c + d + e == w;
  }

  /** Every digit of the input survives, in order: only separators are inserted. */
  lemma {:induction false} TokenisedKeepsDigits(t: string)
    ensures Digits(Tokenised(t)) == Digits(t)
    decreases |t|
  {
    if t == [] {
    } else if !IsWordChar(t[0]) {
      DigitsAppend([t[0]], Tokenised(t[1..]));
      TokenisedKeepsDigits(t[1..]);
      assert t == [t[0]] + t[1..];
      DigitsAppend([t[0]], t[1..]);
    } else {
      var n := WordLen(t);
      DigitsAppend(Rewrite(t[..n]), Tokenised(t[n..]));
      if IsRawCnpj(t[..n]) {
        PunctuateShape(t[..n]);
        DigitsOfDigits(t[..n]);
      }
      TokenisedKeepsDigits(t[n..]);
      assert t == t[..n] + t[n..];
      DigitsAppend(t[..n], t[n..]);
    }
  }

  lemma FormatKeepsDigits(texto: string)
    ensures Digits(FormatCnpjs(texto)) == Digits(texto)
  {
    FormatIsTokenised(texto);
    TokenisedKeepsDigits(texto);
  }

  /** Text without a bounded fourteen-digit run passes through unchanged. */
  lemma {:induction false} TokenisedPassThrough(t: string)
    requires CountCnpjs(t) == 0
    ensures Tokenised(t) == t
    decreases |t|
  {
    if t == [] {
    } else if !IsWordChar(t[0]) {
      TokenisedPassThrough(t[1..]);
    } else {
      var n := WordLen(t);
      TokenisedPassThrough(t[n..]);
    }
  }

  lemma FormatPassThrough(texto: string)
    requires CountCnpjs(texto) == 0
    ensures FormatCnpjs(texto) == texto
  {
    FormatIsTokenised(texto);
    TokenisedPassThrough(texto);
  }

  /** Tokenising distributes over a concatenation that does not split a word. */
  lemma {:induction false} TokenisedAppend(x: string, y: string)
    requires x == [] || y == [] || !IsWordChar(x[|x| - 1]) || !IsWordChar(y[0])
    ensures Tokenised(x + y) == Tokenised(x) + Tokenised(y)
    decreases |x|
  {
    if x == [] {
      assert x + y == y;
    } else if !IsWordChar(x[0]) {
      assert (x + y)[1..] == x[1..] + y;
      TokenisedAppend(x[1..], y);
      Assoc([x[0]], Tokenised(x[1..]), Tokenised(y));
    } else {
      var n := WordLen(x);
      if n < |x| {
        assert (x + y)[..n] == x[..n];
        WordLenExact(x + y, n);
        assert (x + y)[n..] == x[n..] + y;
        TokenisedAppend(x[n..], y);
        Assoc(Rewrite(x[..n]), Tokenised(x[n..]), Tokenised(y));
      } else {
        assert (x + y)[..n] == x;
        assert x[..n] == x;
        WordLenExact(x + y, n);
        assert (x + y)[n..] == y;
        assert x[n..] == [];
      }
    }
  }

  /** A non-empty word that is not a raw CNPJ, followed by a separator, is copied. */
  lemma WordThenSeparator(u: string, c: char, rest: string)
    requires u != [] && AllWordChars(u) && !IsRawCnpj(u)
    requires !IsWordChar(c)
    ensures Tokenised(u + [c] + rest) == u + [c] + Tokenised(rest)
  {
    assert u[..|u|] == u;
    WordLenExact(u, |u|);
    assert u[|u|..] == [];
    TokenisedAppend(u, [c] + rest);
    assert ([c] + rest)[1..] == rest;
    Assoc(u, [c], rest);
    Assoc(u, [c], Tokenised(rest));
  }

  lemma DigitsAreWordChars(s: string)
    requires AllDigits(s)
    ensures AllWordChars(s)
  {
  }

  /** Digit groups joined by separators, as in the punctuated form, are left alone by a second pass. */
  lemma GroupsAreFixed(a: string, b: string, c: string, d: string, e: string)
    requires |a| == 2 && |b| == 3 && |c| == 3 && |d| == 4 && |e| == 2
    requires AllDigits(a) && AllDigits(b) && AllDigits(c) && AllDigits(d) && AllDigits(e)
    ensures var p := a + "." + (b + "." + (c + "/" + (d + "-" + e)));
            Tokenised(p) == p
  {
    DigitsAreWordChars(a);
    DigitsAreWordChars(b);
    DigitsAreWordChars(c);
    DigitsAreWordChars(d);
    DigitsAreWordChars(e);
    WordIsRewritten(e);
    var s4 := d + "-" + e;
    var s3 := c + "/" + s4;
    var s2 := b + "." + s3;
    WordThenSeparator(d, '-', e);
    WordThenSeparator(c, '/', s4);
    WordThenSeparator(b, '.', s3);
    WordThenSeparator(a, '.', s2);
  }

  /** A punctuated CNPJ contains no raw CNPJ: it is left alone by a second pass. */
  lemma PunctuatedIsFixed(w: string)
    requires IsRawCnpj(w)
    ensures Tokenised(Punctuate(w)) == Punctuate(w)
  {
    var a, b, c, d, e := w[..2], w[2..5], w[5..8], w[8..12], w[12..];
    assert Punctuate(w) == a + "." + (b + "." + (c + "/" + (d + "-" + e)));
    GroupsAreFixed(a, b, c, d, e);
  }

  /** The rewrite of one token is left alone by a second pass. */
  lemma RewriteIsFixed(w: string)
    requires w != [] && AllWordChars(w)
    ensures Tokenised(Rewrite(w)) == Rewrite(w)
  {
    if IsRawCnpj(w) {
      PunctuatedIsFixed(w);
    } else {
      assert w[..|w|] == w;
      WordLenExact(w, |w|);
      assert w[|w|..] == [];
    }
  }

  /** A whole word on its own is rewritten exactly when it is a raw CNPJ. */
  lemma WordIsRewritten(w: string)
    requires w != [] && AllWordChars(w)
    ensures Tokenised(w) == Rewrite(w)
  {
    assert w[..|w|] == w;
    WordLenExact(w, |w|);
    assert w[|w|..] == [];
  }

  /** Formatting twice equals formatting once (reference form). */
  lemma {:induction false} TokenisedIdempotent(t: string)
    ensures Tokenised(Tokenised(t)) == Tokenised(t)
    decreases |t|
  {
    if t == [] {
    } else if !IsWordChar(t[0]) {
      TokenisedAppend([t[0]], Tokenised(t[1..]));
      TokenisedIdempotent(t[1..]);
    } else {
      var n := WordLen(t);
      var rest := t[n..];
      RewriteIsFixed(t[..n]);
      TokenisedIdempotent(rest);
      assert Rewrite(t[..n]) != [];
      if rest != [] {
        assert Tokenised(rest)[0] == rest[0];
      }
      TokenisedAppend(Rewrite(t[..n]), Tokenised(rest));
    }
  }

  /** Formatting twice equals formatting once, and formatted text holds no raw CNPJ. */
  lemma FormatIdempotent(texto: string)
    ensures FormatCnpjs(FormatCnpjs(texto)) == FormatCnpjs(texto)
    ensures CountCnpjs(FormatCnpjs(texto)) == 0
  {
    FormatIsTokenised(texto);
    FormatIsTokenised(Tokenised(texto));
    TokenisedIdempotent(texto);
    TokenisedLength(Tokenised(texto));
  }

  // ---------------------------------------------------------------------------
  // Worked examples

  /** A bare fourteen-digit number is punctuated. */
  lemma ExampleSingle()
    ensures FormatCnpjs("12345678000199") == "12.345.678/0001-99"
  {
    var w := "12345678000199";
    assert MatchesAt(w, false);
    assert w[..CnpjDigits] == w && w[CnpjDigits..] == [];
    PunctuateFirstExample();
  }

  /** Tokenising text that ends in a separator and then a whole word. */
  lemma AppendWord(x: string, u: string)
    requires x != [] && !IsWordChar(x[|x| - 1])
    requires u != [] && AllWordChars(u)
    ensures Tokenised(x + u) == Tokenised(x) + Rewrite(u)
  {
    TokenisedAppend(x, u);
    WordIsRewritten(u);
  }

  /** Tokenising text that ends in a word character and then one separator. */
  lemma AppendSeparator(x: string, c: char)
    requires x != [] && IsWordChar(x[|x| - 1])
    requires !IsWordChar(c)
    ensures Tokenised(x + [c]) == Tokenised(x) + [c]
  {
    TokenisedAppend(x, [c]);
  }

  /** Two raw numbers after two ordinary words: the numbers are punctuated, the rest kept. */
  lemma TwoNumbersAmongWords(a: string, w1: string, d: string, w2: string)
    requires a != [] && AllWordChars(a) && !IsRawCnpj(a)
    requires d != [] && AllWordChars(d) && !IsRawCnpj(d)
    requires IsRawCnpj(w1) && IsRawCnpj(w2)
    ensures Tokenised(a + " " + w1 + " " + d + " " + w2)
         == a + " " + Punctuate(w1) + " " + d + " " + Punctuate(w2)
  {
    var p1, p2 := Punctuate(w1), Punctuate(w2);
    assert Tokenised(a + " ") == a + " " by {
      WordIsRewritten(a);
      AppendSeparator(a, ' ');
    }
    assert Tokenised(a + " " + w1 + " ") == a + " " + p1 + " " by {
      AppendWord(a + " ", w1);
      AppendSeparator(a + " " + w1, ' ');
    }
    assert Tokenised(a + " " + w1 + " " + d + " ") == a + " " + p1 + " " + d + " " by {
      AppendWord(a + " " + w1 + " ", d);
      AppendSeparator(a + " " + w1 + " " + d, ' ');
    }
    AppendWord(a + " " + w1 + " " + d + " ", w2);
  }

  /** The replacement applied to the first number of the worked examples. */
  lemma PunctuateFirstExample()
    ensures Punctuate("12345678000199") == "12.345.678/0001-99"
  {
    var w := "12345678000199";
    assert w[..2] == "12" && w[2..5] == "345" && w[5..8] == "678";
    assert w[8..12] == "0001" && w[12..] == "99";
  }

  /** The replacement applied to the second number of the worked example. */
  lemma PunctuateSecondExample()
    ensures Punctuate("98765432000111") == "98.765.432/0001-11"
  {
    var w := "98765432000111";
    assert w[..2] == "98" && w[2..5] == "765" && w[5..8] == "432";
    assert w[8..12] == "0001" && w[12..] == "11";
  }

  /** Two numbers among words are both punctuated; the words and spaces are kept. */
  lemma ExampleTwoNumbers()
    ensures FormatCnpjs("abc" + " " + "12345678000199" + " " + "def" + " " + "98765432000111")
         == "abc" + " " + "12.345.678/0001-99" + " " + "def" + " " + "98.765.432/0001-11"
  {
    var w1, w2 := "12345678000199", "98765432000111";
    assert AllWordChars("abc") && AllWordChars("def");
    TwoNumbersAmongWords("abc", w1, "def", w2);
    PunctuateFirstExample();
    PunctuateSecondExample();
    FormatIsTokenised("abc" + " " + w1 + " " + "def" + " " + w2);
  }

  /** Shorter runs are left alone. */
  lemma ExampleShortRun()
    ensures FormatCnpjs("123") == "123"
  {
    WordIsRewritten("123");
    FormatIsTokenised("123");
  }

  /** A fifteen-digit run is left alone. */
  lemma ExampleLongRun()
    ensures FormatCnpjs("123456780001990") == "123456780001990"
  {
    var w := "123456780001990";
    assert AllWordChars(w);
    WordIsRewritten(w);
    FormatIsTokenised(w);
  }

  /** A fourteen-digit run glued to a letter is left alone. */
  lemma ExampleGluedRun()
    ensures FormatCnpjs("x12345678000199") == "x12345678000199"
  {
    var w := "x12345678000199";
    assert AllWordChars(w);
    WordIsRewritten(w);
    FormatIsTokenised(w);
  }
}
