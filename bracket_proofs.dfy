/** Properties of the bracket-balance scan: the escape rule, what one step
    does to the counters, the counters as opens minus closes, when an order
    error appears and where, and the exact shape of the final report. */
module BracketProofs {
  import opened BracketChecker
  import Decimal

  // ---------------------------------------------------------------------
  // Labels and messages are told apart

  /** Reads the bucket back from its label. */
  function BucketOfLabel(s: string): Bucket {
    if |s| > 8 && s[0] == 'e' then Bucket(KindOfInitial(s[8]), true)
    else if |s| > 0 then Bucket(KindOfInitial(s[0]), false)
    else Bucket(Round, false)
  }

  function KindOfInitial(c: char): Kind {
    if c == 'r' then Round else if c == 's' then Square else Curly
  }

  lemma LabelRoundTrip(b: Bucket)
    ensures BucketOfLabel(Label(b)) == b
  {
  }

  /** Distinct buckets have distinct labels, so the label-keyed
      dictionary and a bucket-keyed one hold the same counters. */
  lemma LabelInjective(b1: Bucket, b2: Bucket)
    requires Label(b1) == Label(b2)
    ensures b1 == b2
  {
    LabelRoundTrip(b1);
    LabelRoundTrip(b2);
  }

  lemma OrderMessageInjective(b1: Bucket, b2: Bucket)
    requires OrderMessage(b1) == OrderMessage(b2)
    ensures b1 == b2
  {
    var m1, m2 := OrderMessage(b1), OrderMessage(b2);
    assert Label(b1) == m1[19..|m1| - 1];
    assert Label(b2) == m2[19..|m2| - 1];
    LabelInjective(b1, b2);
  }

  /** The first two characters of an imbalance message name its bucket. */
  lemma ImbalanceHead(b: Bucket, c: int)
    requires c != 0
    ensures |ImbalanceMessage(b, c)| >= 2
    ensures ImbalanceMessage(b, c)[0] == (if b.escaped then '\\' else Open(b.kind))
    ensures ImbalanceMessage(b, c)[1] == (if b.escaped then Open(b.kind) else ' ')
  {
  }

  lemma ImbalanceIsNotOrder(b: Bucket, c: int, b': Bucket)
    requires c != 0
    ensures ImbalanceMessage(b, c) != OrderMessage(b')
  {
    ImbalanceHead(b, c);
    assert OrderMessage(b')[0] == 'I';
  }

  lemma ImbalanceBucketsDiffer(b: Bucket, c: int, b': Bucket, c': int)
    requires c != 0 && c' != 0 && b != b'
    ensures ImbalanceMessage(b, c) != ImbalanceMessage(b', c')
  {
    ImbalanceHead(b, c);
    ImbalanceHead(b', c');
  }

  // ---------------------------------------------------------------------
  // The escape rule

  /** How many backslashes stand immediately before position `p`. */
  function RunBefore(text: string, p: nat): nat
    requires p <= |text|
  {
    if p == 0 || text[p - 1] != '\\' then 0 else RunBefore(text, p - 1) + 1
  }

  /** The scan classifies every character except a backslash that has a
      character after it. */
  predicate Classified(text: string, p: nat)
    requires p < |text|
  {
    text[p] != '\\' || p == |text| - 1
  }

  /** Reference reading of the escape rule: position by position, each
      classified character once, escaped iff an odd number of backslashes
      stands immediately before it. */
  function ReferenceTokensFrom(text: string, i: nat): seq<Token>
    requires i <= |text|
    decreases |text| - i
  {
    if i == |text| then []
    else
      (if Classified(text, i) then [Token(text[i], Odd(RunBefore(text, i)))] else [])
      + ReferenceTokensFrom(text, i + 1)
  }

  lemma {:induction false} RunBeforeAt(text: string, i: nat, j: nat)
    requires i <= j <= |text|
    requires i == 0 || text[i - 1] != '\\'
    requires forall p :: i <= p < j ==> text[p] == '\\'
    ensures RunBefore(text, j) == j - i
    decreases j
  {
    if j > i {
      RunBeforeAt(text, i, j - 1);
    }
  }

  lemma {:induction false} SkipRun(text: string, i: nat, j: nat)
    requires i <= j < |text|
    requires forall p :: i <= p < j ==> text[p] == '\\'
    ensures ReferenceTokensFrom(text, i) == ReferenceTokensFrom(text, j)
    decreases j - i
  {
    if i < j {
      SkipRun(text, i + 1, j);
    }
  }

  /** One token of the scan: the character `Resolve` lands on, then the rest. */
  lemma TokensFromStep(text: string, i: nat, j: nat, escaped: bool)
    requires i < |text| && Resolve(text, i) == (j, escaped)
    ensures TokensFrom(text, i) == [Token(text[j], escaped)] + TokensFrom(text, j + 1)
  {
  }

  /** One token of the reference reading from the start of a backslash
      run: the run is skipped and the character after it is read with the
      run's parity. */
  lemma ReferenceStep(text: string, i: nat, j: nat, escaped: bool)
    requires i <= j < |text| && Classified(text, j)
    requires i == 0 || text[i - 1] != '\\'
    requires forall p :: i <= p < j ==> text[p] == '\\'
    requires escaped == Odd(j - i)
    ensures ReferenceTokensFrom(text, i) == [Token(text[j], escaped)] + ReferenceTokensFrom(text, j + 1)
  {
    SkipRun(text, i, j);
    RunBeforeAt(text, i, j);
  }

  /** The reference reading, one token further from where `Resolve` lands. */
  lemma ReferenceAtResolve(text: string, i: nat, j: nat, escaped: bool)
    requires i < |text| && Resolve(text, i) == (j, escaped)
    requires i == 0 || text[i - 1] != '\\'
    ensures ReferenceTokensFrom(text, i) == [Token(text[j], escaped)] + ReferenceTokensFrom(text, j + 1)
  {
    ReferenceStep(text, i, j, escaped);
  }

  lemma {:induction false} TokensMatchReference(text: string, i: nat)
    requires i <= |text|
    requires i == 0 || i == |text| || text[i - 1] != '\\'
    ensures TokensFrom(text, i) == ReferenceTokensFrom(text, i)
    decreases |text| - i
  {
    if i < |text| {
      var r := Resolve(text, i);
      var j, escaped := r.0, r.1;
      TokensFromStep(text, i, j, escaped);
      ReferenceAtResolve(text, i, j, escaped);
      TokensMatchReference(text, j + 1);
    }
  }

  /** The scan's classified characters are exactly the reference ones. */
  lemma EscapeRule(text: string)
    ensures Tokens(text) == ReferenceTokensFrom(text, 0)
  {
    TokensMatchReference(text, 0);
  }

  /** An odd run of backslashes escapes the next character, an even run
      does not, and the backslashes themselves are not classified. */
  lemma EscapeExamples()
    ensures Tokens("\\(a)") == [Token('(', true), Token('a', false), Token(')', false)]
    ensures Tokens("\\\\(") == [Token('(', false)]
    ensures Tokens("a\\") == [Token('a', false), Token('\\', false)]
  {
    assert Odd(1) && !Odd(2);
    var one, two, last := "\\(a)", "\\\\(", "a\\";
    assert Resolve(one, 0) == (1, true);
    assert Resolve(two, 0) == (2, false);
    assert Resolve(last, 1) == (1, false);
  }

  lemma {:induction false} TokenCharsFromText(text: string, i: nat)
    requires i <= |text|
    ensures forall t :: t in TokensFrom(text, i) ==> t.ch in text[i..]
    decreases |text| - i
  {
    if i < |text| {
      var r := Resolve(text, i);
      TokenCharsFromText(text, r.0 + 1);
      forall t | t in TokensFrom(text, r.0 + 1)
        ensures t.ch in text[i..]
      {
        var q :| 0 <= q < |text[r.0 + 1..]| && text[r.0 + 1..][q] == t.ch;
        assert text[i..][r.0 + 1 - i + q] == t.ch;
      }
      assert text[i..][r.0 - i] == text[r.0];
    }
  }

  // ---------------------------------------------------------------------
  // One step of the scan

  /** The change token `tok` makes to bucket `b`'s counter. */
  function Delta(tok: Token, b: Bucket): int {
    if tok == Token(Open(b.kind), b.escaped) then 1
    else if tok == Token(Close(b.kind), b.escaped) then -1
    else 0
  }

  predicate FiledUnder(tok: Token, b: Bucket) {
    tok == Token(Open(b.kind), b.escaped) || tok == Token(Close(b.kind), b.escaped)
  }

  /** Of the three rows of the pairs table, only the row of the token's own
      kind changes anything. */
  lemma StepIsOwnPair(st: ScanState, tok: Token, k: Kind)
    requires tok.ch == Open(k) || tok.ch == Close(k)
    ensures Step(st, tok) == StepPair(st, tok, k)
  {
    var s1 := StepPair(st, tok, Round);
    var s2 := StepPair(s1, tok, Square);
    assert StepPairs(st, tok, 1) == s1;
    assert StepPairs(st, tok, 2) == s2;
    assert Step(st, tok) == StepPair(s2, tok, Curly);
    match k
    case Round =>
      assert s2 == s1;
    case Square =>
      assert s1 == st;
    case Curly =>
      assert s1 == st;
      assert s2 == st;
  }

  lemma StepInert(st: ScanState, tok: Token)
    requires forall k :: tok.ch != Open(k) && tok.ch != Close(k)
    ensures Step(st, tok) == st
  {
    assert StepPairs(st, tok, 1) == st;
    assert StepPairs(st, tok, 2) == st;
  }

  /** The effect of the row of the token's own kind. */
  lemma OwnPairEffect(st: ScanState, tok: Token, k: Kind)
    requires tok.ch == Open(k) || tok.ch == Close(k)
    ensures forall b :: Get(StepPair(st, tok, k).counts, b) == Get(st.counts, b) + Delta(tok, b)
    ensures forall b :: b in StepPair(st, tok, k).counts <==> b in st.counts || FiledUnder(tok, b)
    ensures forall b: Bucket :: tok == Token(Close(b.kind), b.escaped) && Get(st.counts, b) < 1 ==>
      StepPair(st, tok, k).errors == Insert(st.errors, OrderMessage(b))
    ensures (forall b: Bucket :: !(tok == Token(Close(b.kind), b.escaped) && Get(st.counts, b) < 1)) ==>
      StepPair(st, tok, k).errors == st.errors
  {
    var own := Bucket(k, tok.escaped);
    assert forall b :: FiledUnder(tok, b) <==> b == own;
    assert forall b :: Delta(tok, b) == (if b == own then (if tok.ch == Open(k) then 1 else -1) else 0);
  }

  /** A bracket changes only its own bucket's counter, and an order error
      is added exactly when a closing bracket drives that counter below zero;
      any other character changes nothing. */
  lemma StepEffect(st: ScanState, tok: Token)
    ensures forall b :: Get(Step(st, tok).counts, b) == Get(st.counts, b) + Delta(tok, b)
    ensures forall b :: b in Step(st, tok).counts <==> b in st.counts || FiledUnder(tok, b)
    ensures forall b: Bucket :: tok == Token(Close(b.kind), b.escaped) && Get(st.counts, b) < 1 ==>
      Step(st, tok).errors == Insert(st.errors, OrderMessage(b))
    ensures (forall b: Bucket :: !(tok == Token(Close(b.kind), b.escaped) && Get(st.counts, b) < 1)) ==>
      Step(st, tok).errors == st.errors
    ensures (forall b :: !FiledUnder(tok, b)) ==> Step(st, tok) == st
  {
    var k := if tok.ch in "()" then Round else if tok.ch in "[]" then Square else Curly;
    if tok.ch == Open(k) || tok.ch == Close(k) {
      StepIsOwnPair(st, tok, k);
      OwnPairEffect(st, tok, k);
      assert FiledUnder(tok, Bucket(k, tok.escaped));
    } else {
      assert forall k' :: tok.ch != Open(k') && tok.ch != Close(k');
      StepInert(st, tok);
    }
  }

  // ---------------------------------------------------------------------
  // Counters at the end of the scan

  /** Opens minus closes filed under `b`. */
  function Net(toks: seq<Token>, b: Bucket): int {
    (multiset(toks)[Token(Open(b.kind), b.escaped)] as int) - multiset(toks)[Token(Close(b.kind), b.escaped)]
  }

  lemma NetAppend(toks: seq<Token>, tok: Token, b: Bucket)
    ensures Net(toks + [tok], b) == Net(toks, b) + Delta(tok, b)
  {
    assert multiset(toks + [tok]) == multiset(toks) + multiset{tok};
  }

  /** Each bucket's counter is the number of opens minus the number of
      closes filed under it, and a bucket is defined exactly when some
      bracket was filed under it. */
  lemma {:induction false} CountsAreNet(toks: seq<Token>)
    ensures forall b :: Get(Scan(toks).counts, b) == Net(toks, b)
    ensures forall b :: b in Scan(toks).counts <==>
      Token(Open(b.kind), b.escaped) in toks || Token(Close(b.kind), b.escaped) in toks
  {
    if toks != [] {
      var pre, t := toks[..|toks| - 1], toks[|toks| - 1];
      assert toks == pre + [t];
      CountsAreNet(pre);
      StepEffect(Scan(pre), t);
      forall b
        ensures Get(Scan(toks).counts, b) == Net(toks, b)
      {
        NetAppend(pre, t, b);
      }
    }
  }

  // ---------------------------------------------------------------------
  // Order errors

  ghost predicate IsOrderMessage(m: string) {
    exists b :: m == OrderMessage(b)
  }

  /** Some non-empty prefix of `toks` drives `b`'s counter below zero. */
  ghost predicate WentNegative(toks: seq<Token>, b: Bucket) {
    exists k :: 0 < k <= |toks| && Net(toks[..k], b) < 0
  }

  /** The errors collected during the scan are order messages, each once. */
  lemma {:induction false} ScanErrorsShape(toks: seq<Token>)
    ensures NoDuplicates(Scan(toks).errors)
    ensures forall m :: m in Scan(toks).errors ==> IsOrderMessage(m)
  {
    if toks != [] {
      var pre, t := toks[..|toks| - 1], toks[|toks| - 1];
      ScanErrorsShape(pre);
      StepEffect(Scan(pre), t);
    }
  }

  /** One step adds the order message of `b` iff the token closes `b`
      while `b`'s opens minus closes is below 1. */
  lemma OrderErrorStep(pre: seq<Token>, t: Token, b: Bucket)
    ensures OrderMessage(b) in Scan(pre + [t]).errors <==>
      OrderMessage(b) in Scan(pre).errors || (t == Token(Close(b.kind), b.escaped) && Net(pre, b) < 1)
  {
    assert (pre + [t])[..|pre|] == pre;
    CountsAreNet(pre);
    StepEffect(Scan(pre), t);
    if OrderMessage(b) in Scan(pre + [t]).errors && OrderMessage(b) !in Scan(pre).errors {
      var b': Bucket :| t == Token(Close(b'.kind), b'.escaped) && Get(Scan(pre).counts, b') < 1
        && Scan(pre + [t]).errors == Insert(Scan(pre).errors, OrderMessage(b'));
      OrderMessageInjective(b, b');
    }
  }

  lemma WentNegativeStep(pre: seq<Token>, t: Token, b: Bucket)
    ensures WentNegative(pre + [t], b) <==> WentNegative(pre, b) || Net(pre + [t], b) < 0
  {
    var toks := pre + [t];
    assert toks[..|toks|] == toks;
    forall k | 0 < k <= |pre|
      ensures toks[..k] == pre[..k]
    {
    }
  }

  /** `Incorrect order of <bucket>.` is reported iff some prefix drives that
      bucket's counter below zero. */
  lemma {:induction false} OrderErrorIff(toks: seq<Token>, b: Bucket)
    ensures OrderMessage(b) in Scan(toks).errors <==> WentNegative(toks, b)
  {
    if toks != [] {
      var pre, t := toks[..|toks| - 1], toks[|toks| - 1];
      assert toks == pre + [t];
      OrderErrorIff(pre, b);
      OrderErrorStep(pre, t, b);
      WentNegativeStep(pre, t, b);
      NetAppend(pre, t, b);
      if pre != [] {
        assert pre[..|pre|] == pre;
      }
    }
  }

  /** The errors of a prefix of the scan are a prefix of the errors of the
      whole scan: messages are only ever appended. */
  lemma {:induction false} ErrorsOnlyAppended(toks: seq<Token>, k: nat)
    requires k <= |toks|
    ensures Scan(toks[..k]).errors <= Scan(toks).errors
    decreases |toks|
  {
    if k < |toks| {
      var pre := toks[..|toks| - 1];
      assert pre[..k] == toks[..k];
      ErrorsOnlyAppended(pre, k);
    } else {
      assert toks[..k] == toks;
    }
  }

  /** Order errors stand in first-trigger order: the errors recorded by the
      time the first `k` characters are classified are the first entries of
      the final list, and an order message is among them iff its bucket went
      negative within those `k` characters. */
  lemma OrderErrorsInTriggerOrder(toks: seq<Token>, k: nat, b: Bucket)
    requires k <= |toks|
    ensures |Scan(toks[..k]).errors| <= |Scan(toks).errors|
    ensures OrderMessage(b) in Scan(toks).errors[..|Scan(toks[..k]).errors|] <==> WentNegative(toks[..k], b)
  {
    ErrorsOnlyAppended(toks, k);
    OrderErrorIff(toks[..k], b);
  }

  // ---------------------------------------------------------------------
  // The end-of-scan report

  /** Reference reading of the report: one imbalance message per bucket in
      `bs` that is defined with a nonzero count, in the order of `bs`. */
  function Imbalances(counts: map<Bucket, int>, bs: seq<Bucket>): seq<string> {
    if bs == [] then []
    else
      var b := bs[|bs| - 1];
      Imbalances(counts, bs[..|bs| - 1])
      + (if b in counts && counts[b] != 0 then [ImbalanceMessage(b, counts[b])] else [])
  }

  lemma {:induction false} ImbalancesMembers(counts: map<Bucket, int>, bs: seq<Bucket>, b: Bucket, c: int)
    requires c != 0
    ensures ImbalanceMessage(b, c) in Imbalances(counts, bs) ==>
      b in bs && b in counts && counts[b] != 0 && ImbalanceMessage(b, c) == ImbalanceMessage(b, counts[b])
    ensures b in bs && b in counts && counts[b] != 0 ==> ImbalanceMessage(b, counts[b]) in Imbalances(counts, bs)
  {
    if bs != [] {
      var pre, last := bs[..|bs| - 1], bs[|bs| - 1];
      assert bs == pre + [last];
      ImbalancesMembers(counts, pre, b, c);
      if b != last && last in counts && counts[last] != 0 {
        ImbalanceBucketsDiffer(b, c, last, counts[last]);
      }
    }
  }

  lemma {:induction false} NoCountsNoImbalances(bs: seq<Bucket>)
    ensures Imbalances(map[], bs) == []
  {
    if bs != [] {
      NoCountsNoImbalances(bs[..|bs| - 1]);
    }
  }

  lemma AppendAssoc<T>(a: seq<T>, b: seq<T>, c: seq<T>)
    ensures a + (b + c) == (a + b) + c
  {
  }

  /** Inserting the report's messages never collapses one: each is new. */
  lemma {:induction false} ReportAppendsImbalances(counts: map<Bucket, int>, errors: seq<string>, bs: seq<Bucket>)
    requires forall m :: m in errors ==> IsOrderMessage(m)
    requires NoDuplicates(bs)
    ensures ReportAll(counts, errors, bs) == errors + Imbalances(counts, bs)
  {
    if bs != [] {
      var pre, last := bs[..|bs| - 1], bs[|bs| - 1];
      assert bs == pre + [last];
      ReportAppendsImbalances(counts, errors, pre);
      ReportAllNext(counts, errors, pre, last);
      var prev := errors + Imbalances(counts, pre);
      if last in counts && counts[last] != 0 {
        var m := ImbalanceMessage(last, counts[last]);
        if m in errors {
          var b' :| m == OrderMessage(b');
          ImbalanceIsNotOrder(last, counts[last], b');
        }
        if m in Imbalances(counts, pre) {
          ImbalancesMembers(counts, pre, last, counts[last]);
        }
        assert m !in prev;
        assert ReportBucket(counts, prev, last) == prev + [m];
        assert Imbalances(counts, bs) == Imbalances(counts, pre) + [m];
        AppendAssoc(errors, Imbalances(counts, pre), [m]);
      } else {
        assert ReportBucket(counts, prev, last) == prev;
        assert Imbalances(counts, bs) == Imbalances(counts, pre);
      }
    }
  }

  lemma {:induction false} ReportKeepsNoDuplicates(counts: map<Bucket, int>, errors: seq<string>, bs: seq<Bucket>)
    requires NoDuplicates(errors)
    ensures NoDuplicates(ReportAll(counts, errors, bs))
  {
    if bs != [] {
      ReportKeepsNoDuplicates(counts, errors, bs[..|bs| - 1]);
    }
  }

  /** The messages are the order errors in first-trigger order, followed by
      the plain and then the escaped imbalance messages in table order, with
      no message twice. */
  lemma MessagesShape(text: string)
    ensures Messages(text) == Scan(Tokens(text)).errors + Imbalances(Scan(Tokens(text)).counts, ReportOrder)
    ensures NoDuplicates(Messages(text))
  {
    var st := Scan(Tokens(text));
    ScanErrorsShape(Tokens(text));
    ReportAppendsImbalances(st.counts, st.errors, ReportOrder);
    ReportKeepsNoDuplicates(st.counts, st.errors, ReportOrder);
  }

  /** For every bucket, the report holds exactly one imbalance message when
      its opens minus closes is nonzero, stating that difference, and none
      when it is zero (in particular none for a bucket never seen). */
  lemma ImbalanceReported(text: string, b: Bucket)
    ensures var n := Net(Tokens(text), b);
      n != 0 ==> ImbalanceMessage(b, n) in Messages(text)
    ensures forall c :: c != 0 && ImbalanceMessage(b, c) in Messages(text) ==>
      Net(Tokens(text), b) != 0 && ImbalanceMessage(b, c) == ImbalanceMessage(b, Net(Tokens(text), b))
  {
    var toks := Tokens(text);
    var st := Scan(toks);
    MessagesShape(text);
    CountsAreNet(toks);
    ScanErrorsShape(toks);
    assert b in ReportOrder by {
      assert b == ReportOrder[(if b.escaped then 3 else 0) + (match b.kind case Round => 0 case Square => 1 case Curly => 2)];
    }
    var n := Net(toks, b);
    if n != 0 {
      ImbalancesMembers(st.counts, ReportOrder, b, n);
    }
    forall c | c != 0 && ImbalanceMessage(b, c) in Messages(text)
      ensures n != 0 && ImbalanceMessage(b, c) == ImbalanceMessage(b, n)
    {
      if ImbalanceMessage(b, c) in st.errors {
        var b' :| ImbalanceMessage(b, c) == OrderMessage(b');
        ImbalanceIsNotOrder(b, c, b');
      }
      ImbalancesMembers(st.counts, ReportOrder, b, c);
    }
  }

  lemma {:induction false} InertScan(toks: seq<Token>)
    requires forall t :: t in toks ==> t.ch !in "()[]{}"
    ensures Scan(toks) == Initial
  {
    if toks != [] {
      var pre, t := toks[..|toks| - 1], toks[|toks| - 1];
      assert forall t' :: t' in pre ==> t' in toks;
      InertScan(pre);
      StepInert(Scan(pre), t);
    }
  }

  /** Text with no bracket characters, the empty text among it, yields no
      message: the indicator is off and the tooltip empty. */
  lemma NoBracketsNoMessages(text: string)
    requires forall i :: 0 <= i < |text| ==> text[i] !in "()[]{}"
    ensures Messages(text) == []
    ensures Render(Messages(text)) == Indicator([], false)
  {
    TokenCharsFromText(text, 0);
    assert text[0..] == text;
    InertScan(Tokens(text));
    MessagesShape(text);
    NoCountsNoImbalances(ReportOrder);
  }
}
