/** The prompt bracket-balance scanner of the prompt-bracket-checker extension.

    One left-to-right pass over the prompt text. A run of backslashes toggles an
    `escaped` flag and the scan lands on the character after the run; every
    bracket is filed under a bucket, the plain bucket of its kind or the
    escaped one, whose counter goes up for an opening and down for a closing
    bracket. A closing bracket that drives its counter below zero records an
    order error; after the scan every bucket that was seen and has a nonzero
    counter gets an imbalance message.

    The specification functions below describe the scan on values; the method
    `CheckBrackets` is the scan as `checkBrackets` writes it, with its loops, and is
    proved to compute `Messages`. */
module BracketChecker {
  import Decimal

  /** The three rows of the `pairs` table, in table order. */
  datatype Kind = Round | Square | Curly

  const Kinds: seq<Kind> := [Round, Square, Curly]

  function Open(k: Kind): char {
    match k
    case Round => '('
    case Square => '['
    case Curly => '{'
  }

  function Close(k: Kind): char {
    match k
    case Round => ')'
    case Square => ']'
    case Curly => '}'
  }

  function KindLabel(k: Kind): string {
    match k
    case Round => "round brackets"
    case Square => "square brackets"
    case Curly => "curly brackets"
  }

  /** A key of the `counts` dictionary. `checkBrackets` keys it by `Label(b)`;
      `Label` is injective (BracketProofs.LabelInjective), so keying by the
      bucket itself is the same dictionary. */
  datatype Bucket = Bucket(kind: Kind, escaped: bool)

  function Label(b: Bucket): string {
    if b.escaped then "escaped " + KindLabel(b.kind) else KindLabel(b.kind)
  }

  /** A character the scan classifies, with the escape flag it was read with. */
  datatype Token = Token(ch: char, escaped: bool)

  // ---------------------------------------------------------------------
  // Messages

  /** The message of line 35; the bucket's label can be read back from it. */
  function OrderMessage(b: Bucket): (m: string)
    ensures |m| == |Label(b)| + 20 && m[..19] == "Incorrect order of "
    ensures m[19..|m| - 1] == Label(b) && m[|m| - 1] == '.'
  {
    "Incorrect order of " + Label(b) + "."
  }

  /** The open and close symbols shown in an imbalance message; an escaped
      bucket shows them behind a backslash. */
  function OpenSymbol(b: Bucket): string {
    if b.escaped then ['\\', Open(b.kind)] else [Open(b.kind)]
  }

  function CloseSymbol(b: Bucket): string {
    if b.escaped then ['\\', Close(b.kind)] else [Close(b.kind)]
  }

  /** The end-of-scan message for a bucket whose final count is `c`. */
  function ImbalanceMessage(b: Bucket, c: int): (m: string)
    requires c != 0
    ensures |m| >= 2 && m[..|OpenSymbol(b)|] == OpenSymbol(b)
    ensures m[|m| - 1] == '.'
  {
    var head := OpenSymbol(b) + " ... " + CloseSymbol(b) + " - Detected ";
    if c > 0 then head + Decimal.FromNat(c) + " more opening than closing " + Label(b) + "."
    else head + Decimal.FromNat(-c) + " more closing than opening " + Label(b) + "."
  }

  /** `Set.prototype.add` on an insertion-ordered set kept as a sequence. */
  function Insert(errors: seq<string>, m: string): (r: seq<string>)
    ensures m in r
    ensures forall x :: x in r <==> x in errors || x == m
    ensures errors <= r && |r| <= |errors| + 1
    ensures m in errors ==> r == errors
    ensures NoDuplicates(errors) ==> NoDuplicates(r)
  {
    if m in errors then errors else errors + [m]
  }

  predicate NoDuplicates<T(==)>(s: seq<T>) {
    forall i, j :: 0 <= i < j < |s| ==> s[i] != s[j]
  }

  // ---------------------------------------------------------------------
  // Escape resolution and the classified characters

  /** `n` is odd: the flag a run of `n` toggles ends up set. */
  function Odd(n: nat): bool {
    if n == 0 then false else !Odd(n - 1)
  }

  lemma {:induction false} OddIsParity(n: nat)
    ensures Odd(n) <==> n % 2 == 1
  {
    if n > 0 {
      OddIsParity(n - 1);
    }
  }

  /** Where the scan lands from position `i`, and with which escape flag:
      it skips every backslash that has a character after it, toggling the
      flag once per backslash. */
  function Resolve(text: string, i: nat): (r: (nat, bool))
    requires i < |text|
    decreases |text| - i
    ensures i <= r.0 < |text|
    ensures forall p :: i <= p < r.0 ==> text[p] == '\\'
    ensures text[r.0] != '\\' || r.0 == |text| - 1
    ensures r.1 == Odd(r.0 - i)
  {
    if text[i] == '\\' && i + 1 < |text| then
      var r' := Resolve(text, i + 1);
      (r'.0, !r'.1)
    else
      (i, false)
  }

  /** The characters the scan classifies from position `i` on, in order. */
  function TokensFrom(text: string, i: nat): (r: seq<Token>)
    requires i <= |text|
    decreases |text| - i
    ensures |r| <= |text| - i
    ensures r == [] <==> i == |text|
  {
    if i == |text| then []
    else
      var r := Resolve(text, i);
      [Token(text[r.0], r.1)] + TokensFrom(text, r.0 + 1)
  }

  function Tokens(text: string): (r: seq<Token>)
    ensures |r| <= |text|
    ensures r == [] <==> text == []
  {
    TokensFrom(text, 0)
  }

  // ---------------------------------------------------------------------
  // The scan state and one step of the scan

  /** `counts` and `errors` of `checkBrackets` after some prefix of the scan. */
  datatype ScanState = ScanState(counts: map<Bucket, int>, errors: seq<string>)

  const Initial := ScanState(map[], [])

  /** `counts[lb] || 0`: an absent key reads as zero. */
  function Get(counts: map<Bucket, int>, b: Bucket): int {
    if b in counts then counts[b] else 0
  }

  /** One iteration of the inner loop over the pairs table, for kind `k`. */
  function StepPair(st: ScanState, tok: Token, k: Kind): (r: ScanState)
    ensures tok.ch != Open(k) && tok.ch != Close(k) ==> r == st
    ensures r.counts.Keys <= st.counts.Keys + {Bucket(k, tok.escaped)}
    ensures st.errors <= r.errors && |r.errors| <= |st.errors| + 1
  {
    var lb := Bucket(k, tok.escaped);
    if tok.ch == Open(k) then
      st.(counts := st.counts[lb := Get(st.counts, lb) + 1])
    else if tok.ch == Close(k) then
      var c := Get(st.counts, lb) - 1;
      ScanState(st.counts[lb := c], if c < 0 then Insert(st.errors, OrderMessage(lb)) else st.errors)
    else
      st
  }

  /** The inner loop run over the first `n` rows of the pairs table. */
  function StepPairs(st: ScanState, tok: Token, n: nat): (r: ScanState)
    requires n <= |Kinds|
    ensures st.errors <= r.errors
  {
    if n == 0 then st else StepPair(StepPairs(st, tok, n - 1), tok, Kinds[n - 1])
  }

  /** One iteration of the main loop's filing: at most one order error is added. */
  function Step(st: ScanState, tok: Token): (r: ScanState)
    ensures st.errors <= r.errors && |r.errors| <= |st.errors| + 1
  {
    assert Kinds[0] == Round && Kinds[1] == Square && Kinds[2] == Curly;
    var s1 := StepPair(st, tok, Round);
    var s2 := StepPair(s1, tok, Square);
    assert StepPairs(st, tok, 0) == st;
    assert StepPairs(st, tok, 1) == s1;
    assert StepPairs(st, tok, 2) == s2;
    assert tok.ch in "()" ==> s2 == s1;
    assert tok.ch !in "()" ==> s1 == st;
    StepPairs(st, tok, |Kinds|)
  }

  /** The state after classifying `toks` in order. */
  function Scan(toks: seq<Token>): (r: ScanState)
    ensures |r.errors| <= |toks|
  {
    if toks == [] then Initial else Step(Scan(toks[..|toks| - 1]), toks[|toks| - 1])
  }

  /** The inner loop over the pairs table, one row further. */
  lemma StepPairsNext(st: ScanState, tok: Token, p: nat)
    requires p < |Kinds|
    ensures StepPairs(st, tok, p + 1) == StepPair(StepPairs(st, tok, p), tok, Kinds[p])
  {
  }

  /** One iteration of the main loop, on values: the character the scan
      lands on from `start` is the next token. */
  lemma TokensAdvance(text: string, start: nat, done: seq<Token>)
    requires start < |text|
    requires done + TokensFrom(text, start) == Tokens(text)
    ensures var r := Resolve(text, start);
      (done + [Token(text[r.0], r.1)]) + TokensFrom(text, r.0 + 1) == Tokens(text)
  {
    var r := Resolve(text, start);
    var tok, rest := Token(text[r.0], r.1), TokensFrom(text, r.0 + 1);
    assert TokensFrom(text, start) == [tok] + rest;
    assert (done + [tok]) + rest == done + ([tok] + rest);
  }

  /** Classifying one more token is one more step of `Scan`. */
  lemma ScanAppend(toks: seq<Token>, tok: Token)
    ensures Scan(toks + [tok]) == Step(Scan(toks), tok)
  {
    assert (toks + [tok])[..|toks|] == toks;
  }

  // ---------------------------------------------------------------------
  // The end-of-scan report

  /** One iteration of a reporting loop: nothing for an undefined bucket or
      a zero count, otherwise the imbalance message. */
  function ReportBucket(counts: map<Bucket, int>, errors: seq<string>, b: Bucket): (r: seq<string>)
    ensures errors <= r && |r| <= |errors| + 1
    ensures b in counts && counts[b] != 0 ==> ImbalanceMessage(b, counts[b]) in r
    ensures b !in counts || counts[b] == 0 ==> r == errors
  {
    if b !in counts then errors
    else if counts[b] > 0 then Insert(errors, ImbalanceMessage(b, counts[b]))
    else if counts[b] < 0 then Insert(errors, ImbalanceMessage(b, counts[b]))
    else errors
  }

  function ReportAll(counts: map<Bucket, int>, errors: seq<string>, bs: seq<Bucket>): (r: seq<string>)
    ensures errors <= r && |r| <= |errors| + |bs|
  {
    if bs == [] then errors
    else ReportBucket(counts, ReportAll(counts, errors, bs[..|bs| - 1]), bs[|bs| - 1])
  }

  /** The reporting loops, one bucket further. */
  lemma ReportAllNext(counts: map<Bucket, int>, errors: seq<string>, bs: seq<Bucket>, b: Bucket)
    ensures ReportAll(counts, errors, bs + [b]) == ReportBucket(counts, ReportAll(counts, errors, bs), b)
  {
    assert (bs + [b])[..|bs|] == bs;
  }

  const PlainBuckets: seq<Bucket> := [Bucket(Round, false), Bucket(Square, false), Bucket(Curly, false)]
  const EscapedBuckets: seq<Bucket> := [Bucket(Round, true), Bucket(Square, true), Bucket(Curly, true)]
  /** The reporting order: the plain loop, then the escaped loop. */
  const ReportOrder: seq<Bucket> := PlainBuckets + EscapedBuckets

  function Report(st: ScanState): seq<string> {
    ReportAll(st.counts, st.errors, ReportOrder)
  }

  /** The messages `checkBrackets` collects for `text`. */
  function Messages(text: string): (r: seq<string>)
    ensures Scan(Tokens(text)).errors <= r
    ensures |r| <= |text| + |ReportOrder|
  {
    Report(Scan(Tokens(text)))
  }

  // ---------------------------------------------------------------------
  // The two writes to the counter element

  datatype Indicator = Indicator(title: string, error: bool)

  /** `[...errors].join('\n')`. */
  function Join(ms: seq<string>, sep: char): (r: string)
    ensures ms == [] ==> r == []
    ensures |ms| == 1 ==> r == ms[0]
    ensures ms != [] ==> |r| >= |ms[|ms| - 1]| && r[|r| - |ms[|ms| - 1]|..] == ms[|ms| - 1]
    ensures |ms| > 1 ==> sep in r
  {
    if ms == [] then []
    else if |ms| == 1 then ms[0]
    else Join(ms[..|ms| - 1], sep) + [sep] + ms[|ms| - 1]
  }

  /** The tooltip and the `error` class of the counter element. */
  function Render(messages: seq<string>): (v: Indicator)
    ensures v.error <==> messages != []
    ensures (forall m :: m in messages ==> m != []) ==> (v.title == [] <==> !v.error)
  {
    assert messages != [] ==> messages[|messages| - 1] in messages;
    Indicator(Join(messages, '\n'), |messages| != 0)
  }

  // ---------------------------------------------------------------------
  // The scan as `checkBrackets` writes it, with its loops

  /** The inner `while` of the scan (`prompt-bracket-checker.js` lines
      19-25): from position `i`, toggle `escaped` on every backslash that
      has a character after it and land on the character after the run. */
  method ResolveEscapes(text: string, i: nat) returns (j: nat, escaped: bool)
    requires i < |text|
    ensures (j, escaped) == Resolve(text, i)
  {
    j, escaped := i, false;
    while text[j] == '\\' && j + 1 < |text|
      invariant i <= j < |text|
      invariant Resolve(text, i) == (Resolve(text, j).0, Resolve(text, j).1 != escaped)
      decreases |text| - j
    {
      escaped := !escaped;
      j := j + 1;
    }
  }

  /** The `for` over the pairs table (`prompt-bracket-checker.js` lines
      27-38): file character `ch`, read with flag `escaped`, under its
      bucket. The dictionary update and `Set.add` are `Get` and `Insert`. */
  method FileChar(counts: map<Bucket, int>, errors: seq<string>, ch: char, escaped: bool)
    returns (counts': map<Bucket, int>, errors': seq<string>)
    ensures ScanState(counts', errors') == Step(ScanState(counts, errors), Token(ch, escaped))
  {
    counts', errors' := counts, errors;
    for p := 0 to |Kinds|
      invariant ScanState(counts', errors') == StepPairs(ScanState(counts, errors), Token(ch, escaped), p)
    {
      var k := Kinds[p];
      var lb := Bucket(k, escaped);
      ghost var before := ScanState(counts', errors');
      StepPairsNext(ScanState(counts, errors), Token(ch, escaped), p);
      if ch == Open(k) {
        counts' := counts'[lb := Get(counts', lb) + 1];
        assert ScanState(counts', errors') == StepPair(before, Token(ch, escaped), k);
      } else if ch == Close(k) {
        counts' := counts'[lb := Get(counts', lb) - 1];
        if counts'[lb] < 0 {
          errors' := Insert(errors', OrderMessage(lb));
        }
        assert ScanState(counts', errors') == StepPair(before, Token(ch, escaped), k);
      } else {
        assert ScanState(counts', errors') == StepPair(before, Token(ch, escaped), k);
      }
    }
  }

  /** The main loop of `checkBrackets` (`prompt-bracket-checker.js` lines
      14-41): the counters and the order errors after one pass over `text`. */
  method ScanText(text: string) returns (counts: map<Bucket, int>, errors: seq<string>)
    ensures ScanState(counts, errors) == Scan(Tokens(text))
  {
    counts, errors := map[], [];
    var i := 0;
    ghost var done: seq<Token> := [];
    while i < |text|
      invariant i <= |text|
      invariant done + TokensFrom(text, i) == Tokens(text)
      invariant ScanState(counts, errors) == Scan(done)
      decreases |text| - i
    {
      TokensAdvance(text, i, done);
      var escaped;
      i, escaped := ResolveEscapes(text, i);
      counts, errors := FileChar(counts, errors, text[i], escaped);
      ScanAppend(done, Token(text[i], escaped));
      done := done + [Token(text[i], escaped)];
      i := i + 1;
    }
    assert done == Tokens(text);
  }

  /** The two reporting loops of `checkBrackets` (`prompt-bracket-checker.js`
      lines 43-68): plain buckets first, then escaped ones, each in table
      order. */
  method ReportCounts(counts: map<Bucket, int>, errors: seq<string>) returns (messages: seq<string>)
    ensures messages == ReportAll(counts, errors, ReportOrder)
  {
    messages := errors;
    for p := 0 to |Kinds|
      invariant messages == ReportAll(counts, errors, PlainBuckets[..p])
    {
      var lb := Bucket(Kinds[p], false);
      ghost var before := messages;
      if lb in counts {
        if counts[lb] > 0 {
          messages := Insert(messages, ImbalanceMessage(lb, counts[lb]));
        } else if counts[lb] < 0 {
          messages := Insert(messages, ImbalanceMessage(lb, counts[lb]));
        }
      }
      assert messages == ReportBucket(counts, before, lb);
      assert PlainBuckets[..p + 1] == PlainBuckets[..p] + [lb];
      ReportAllNext(counts, errors, PlainBuckets[..p], lb);
    }
    assert PlainBuckets[..|Kinds|] == PlainBuckets + EscapedBuckets[..0];
    for p := 0 to |Kinds|
      invariant messages == ReportAll(counts, errors, PlainBuckets + EscapedBuckets[..p])
    {
      var lb := Bucket(Kinds[p], true);
      ghost var before := messages;
      if lb in counts {
        if counts[lb] > 0 {
          messages := Insert(messages, ImbalanceMessage(lb, counts[lb]));
        } else if counts[lb] < 0 {
          messages := Insert(messages, ImbalanceMessage(lb, counts[lb]));
        }
      }
      assert messages == ReportBucket(counts, before, lb);
      assert PlainBuckets + EscapedBuckets[..p + 1] == (PlainBuckets + EscapedBuckets[..p]) + [lb];
      ReportAllNext(counts, errors, PlainBuckets + EscapedBuckets[..p], lb);
    }
    assert EscapedBuckets[..|Kinds|] == EscapedBuckets;
  }

  /** `checkBrackets` (`prompt-bracket-checker.js` lines 13-72): the
      messages, and the tooltip and error indicator it writes to the counter
      element. */
  method CheckBrackets(text: string) returns (messages: seq<string>, view: Indicator)
    ensures messages == Messages(text)
    ensures view == Render(messages)
  {
    var counts, errors := ScanText(text);
    messages := ReportCounts(counts, errors);
    view := Indicator(Join(messages, '\n'), |messages| != 0);
  }
}
