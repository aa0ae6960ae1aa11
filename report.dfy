/** What `Cest__run_all` computes and prints, stated over the outcomes of the
    enrolled tests: the two counters it keeps, the colour of each status line,
    and the text of the status and summary lines. */
module Report {
  import opened CStrings
  import opened Records
  import Ansi

  /** The outcomes of the records' bodies, in the records' order. */
  function Outcomes(recs: seq<CestRecord>): seq<CestState>
  {
    seq(|recs|, i requires 0 <= i < |recs| => Execute(recs[i]))
  }

  /** How many of the first `n` outcomes are `o`: the reference count, by
      explicit comparison. */
  function CountIn(outs: seq<CestState>, n: nat, o: CestState): nat
    requires n <= |outs|
  {
    if n == 0 then 0 else CountIn(outs, n - 1, o) + (if outs[n - 1] == o then 1 else 0)
  }

  /** How many of `outs` are `o`. */
  function Count(outs: seq<CestState>, o: CestState): nat
  {
    CountIn(outs, |outs|, o)
  }

  /** The runner's `successes` counter after the first `n` tests: one for every
      outcome whose enumerator value is nonzero, which is the test
      `if (return_value)`. */
  function SuccessesIn(outs: seq<CestState>, n: nat): (r: nat)
    requires n <= |outs|
    ensures r <= n
  {
    if n == 0 then 0 else SuccessesIn(outs, n - 1) + (if Ordinal(outs[n - 1]) != 0 then 1 else 0)
  }

  /** The runner's `pends` counter after the first `n` tests: one for every
      outcome whose enumerator value minus one is nonzero, which is the test
      `if (return_value - 1)`. */
  function PendsIn(outs: seq<CestState>, n: nat): (r: nat)
    requires n <= |outs|
    ensures r <= n
  {
    if n == 0 then 0 else PendsIn(outs, n - 1) + (if Ordinal(outs[n - 1]) - 1 != 0 then 1 else 0)
  }

  /** The `successes` counter after all of `outs`. */
  function Successes(outs: seq<CestState>): nat
  {
    SuccessesIn(outs, |outs|)
  }

  /** The `pends` counter after all of `outs`. */
  function Pends(outs: seq<CestState>): nat
  {
    PendsIn(outs, |outs|)
  }

  /** Every outcome is exactly one of the three. */
  lemma {:induction false} CountsPartition(outs: seq<CestState>, n: nat)
    requires n <= |outs|
    ensures CountIn(outs, n, Failure) + CountIn(outs, n, Success) + CountIn(outs, n, Pending) == n
  {
    if n > 0 {
      CountsPartition(outs, n - 1);
    }
  }

  /** What the two counters really count: `successes` counts every test that
      did not fail (pending ones included), `pends` every test that did not
      succeed (failing ones included). */
  lemma {:induction false} CountersMeaning(outs: seq<CestState>, n: nat)
    requires n <= |outs|
    ensures SuccessesIn(outs, n) == CountIn(outs, n, Success) + CountIn(outs, n, Pending)
    ensures PendsIn(outs, n) == CountIn(outs, n, Failure) + CountIn(outs, n, Pending)
    ensures SuccessesIn(outs, n) == n - CountIn(outs, n, Failure)
    ensures PendsIn(outs, n) == n - CountIn(outs, n, Success)
  {
    if n > 0 {
      CountersMeaning(outs, n - 1);
    }
    CountsPartition(outs, n);
  }

  /** `CountIn(outs, n, o)` is zero exactly when none of the first `n`
      outcomes is `o`. */
  lemma {:induction false} CountZero(outs: seq<CestState>, n: nat, o: CestState)
    requires n <= |outs|
    ensures CountIn(outs, n, o) == 0 <==> forall i :: 0 <= i < n ==> outs[i] != o
  {
    if n > 0 {
      CountZero(outs, n - 1, o);
    }
  }

  /** The runner's result `total - successes` is the number of failed tests;
      it is zero exactly when no test failed. */
  lemma FailedTests(recs: seq<CestRecord>)
    ensures |recs| - Successes(Outcomes(recs)) == Count(Outcomes(recs), Failure)
    ensures Count(Outcomes(recs), Failure) <= |recs|
    ensures Count(Outcomes(recs), Failure) == 0 <==> forall i :: 0 <= i < |recs| ==> Execute(recs[i]) != Failure
  {
    var outs := Outcomes(recs);
    CountersMeaning(outs, |recs|);
    CountZero(outs, |recs|, Failure);
    assert forall i :: 0 <= i < |recs| ==> outs[i] == Execute(recs[i]);
  }

  /** One `printf` of the runner, with the arguments it is given: a status
      line (`"%s->%s%s%s()\n"`) receives the record's two buffers and a
      colour, the summary line (`"%s%d successes%s (of %d)\n"`) a colour and
      two counts. */
  datatype Line =
    | StatusLine(namespace: seq<char>, colour: string, name: seq<char>)
    | SummaryLine(colour: string, successes: nat, total: nat)

  /** The characters a `printf` writes. A `%s` of a buffer writes its C
      string. */
  function Text(l: Line): string
  {
    match l
    case StatusLine(namespace, colour, name) =>
      CString(namespace) + "->" + colour + CString(name) + Ansi.Reset + "()\n"
    case SummaryLine(colour, successes, total) =>
      colour + Decimal(successes) + " successes" + Ansi.Reset + " (of " + Decimal(total) + ")\n"
  }

  /** Each `printf` writes exactly one line, ending in the newline of its
      format, when the strings it is given hold no newline. */
  lemma TextIsOneLine(l: Line)
    requires l.StatusLine? ==> '\n' !in CString(l.namespace) + l.colour + CString(l.name)
    requires l.SummaryLine? ==> '\n' !in l.colour
    ensures |Text(l)| > 0 && Text(l)[|Text(l)| - 1] == '\n'
    ensures '\n' !in Text(l)[..|Text(l)| - 1]
  {
    var t := Text(l);
    assert '\n' !in Ansi.Reset;
    match l
    case StatusLine(namespace, colour, name) =>
      assert t[..|t| - 1] == CString(namespace) + "->" + colour + CString(name) + Ansi.Reset + "()";
    case SummaryLine(colour, successes, total) =>
      var s, n := Decimal(successes), Decimal(total);
      assert '\n' !in s && '\n' !in n;
      assert t[..|t| - 1] == colour + s + " successes" + Ansi.Reset + " (of " + n + ")";
  }

  /** The colour of a status line, chosen as the runner does from the
      enumerator value: red for a failure, green for a success, yellow for a
      pending test. */
  function StatusColour(o: CestState): (e: string)
    ensures o == Failure ==> e == Ansi.Failure
    ensures o == Success ==> e == Ansi.Success
    ensures o == Pending ==> e == Ansi.Pending
  {
    ColourOfValue(Ordinal(o))
  }

  /** The ternary the runner applies to the enumerator value it got back. */
  function ColourOfValue(v: int): string
  {
    if v != 0 then (if v - 1 != 0 then Ansi.Pending else Ansi.Success) else Ansi.Failure
  }

  /** The status line printed for one test after running it. */
  function TestLine(c: CestRecord): Line
  {
    StatusLine(c.namespace, StatusColour(Execute(c)), c.name)
  }

  /** The status lines of the records, one each, in their order. */
  function TestLines(recs: seq<CestRecord>): seq<Line>
  {
    seq(|recs|, i requires 0 <= i < |recs| => TestLine(recs[i]))
  }

  /** The status line of a record made by `Cest__create` from NUL-free
      strings, as C string literals are: the namespace and the name appear cut
      to the lengths `STRCPY` keeps, around the colour of the body's outcome. */
  lemma CreatedStatusText(c: CestRecord, namespace: string, name: string, body: () -> CestState)
    requires Nul !in namespace && Nul !in name
    requires c.namespace == StrCpyBuffer(namespace, NamespaceSize)
    requires c.name == StrCpyBuffer(name, NameSize)
    requires c.body == body
    ensures Text(TestLine(c))
              == namespace[..Min(|namespace|, 31)] + "->" + StatusColour(body())
                 + name[..Min(|name|, 215)] + Ansi.Reset + "()\n"
  {
    StrCpyTruncatesPlain(namespace, NamespaceSize);
    StrCpyTruncatesPlain(name, NameSize);
  }

  /** The colour sequences of the three outcomes are distinct and equally long. */
  lemma StatusColourInjective(o: CestState, p: CestState)
    ensures |StatusColour(o)| == 5
    ensures StatusColour(o) == StatusColour(p) ==> o == p
  {
    var e, f := StatusColour(o), StatusColour(p);
    if e == f {
      assert e[3] == f[3];
    }
  }

  lemma SliceOfLine(a: string, b: string, n: string, r: string, q: string)
    ensures (a + b + n + r + q)[|a|..|a| + |b|] == b
  {
    var t := a + b + n + r + q;
    assert forall i :: 0 <= i < |b| ==> t[|a| + i] == b[i];
  }

  /** Two status texts for the same namespace and name are equal only when
      the tests had the same outcome: the colour sits right after the arrow and
      tells the outcome. */
  lemma StatusLineShowsOutcome(c: CestRecord, d: CestRecord)
    requires c.Namespace() == d.Namespace() && c.Name() == d.Name()
    requires Text(TestLine(c)) == Text(TestLine(d))
    ensures Execute(c) == Execute(d)
  {
    var a := c.Namespace() + "->";
    var e, f := StatusColour(Execute(c)), StatusColour(Execute(d));
    StatusColourInjective(Execute(c), Execute(d));
    StatusColourInjective(Execute(d), Execute(c));
    SliceOfLine(a, e, c.Name(), Ansi.Reset, "()\n");
    SliceOfLine(a, f, c.Name(), Ansi.Reset, "()\n");
  }

  /** The colour of the summary line, chosen as the runner does: red when the
      success counter is below the total, else yellow when `pends` is nonzero,
      else green. */
  function SummaryColour(successes: int, total: int, pends: int): (e: string)
    ensures e == Ansi.Failure <==> successes < total
    ensures e == Ansi.Pending <==> successes >= total && pends != 0
    ensures e == Ansi.Success <==> successes >= total && pends == 0
  {
    assert Ansi.Failure[3] == '1' && Ansi.Pending[3] == '3' && Ansi.Success[3] == '2';
    if successes < total then Ansi.Failure else if pends != 0 then Ansi.Pending else Ansi.Success
  }

  /** The summary line for a run with these outcomes. */
  function Summary(outs: seq<CestState>): (l: Line)
    ensures l.SummaryLine? && l.total == |outs|
    ensures l.successes == |outs| - Count(outs, Failure)
  {
    CountersMeaning(outs, |outs|);
    SummaryLine(SummaryColour(Successes(outs), |outs|, Pends(outs)), Successes(outs), |outs|)
  }

  /** The summary colour is red exactly when some test failed, yellow exactly
      when none failed and some is pending, green exactly when all succeeded. */
  lemma SummaryColourMeaning(outs: seq<CestState>)
    ensures (SummaryColour(Successes(outs), |outs|, Pends(outs)) == Ansi.Failure)
              <==> exists i :: 0 <= i < |outs| && outs[i] == Failure
    ensures (SummaryColour(Successes(outs), |outs|, Pends(outs)) == Ansi.Pending)
              <==> (forall i :: 0 <= i < |outs| ==> outs[i] != Failure)
                   && exists i :: 0 <= i < |outs| && outs[i] == Pending
    ensures (SummaryColour(Successes(outs), |outs|, Pends(outs)) == Ansi.Success)
              <==> forall i :: 0 <= i < |outs| ==> outs[i] == Success
  {
    CountersMeaning(outs, |outs|);
    CountZero(outs, |outs|, Failure);
    CountZero(outs, |outs|, Pending);
    CountZero(outs, |outs|, Success);
    CountsPartition(outs, |outs|);
    if forall i :: 0 <= i < |outs| ==> outs[i] != Failure && outs[i] != Pending {
      assert forall i :: 0 <= i < |outs| ==> outs[i] == Success;
    }
  }

  /** A run with no tests prints `0 successes (of 0)` in green. */
  lemma SummaryOfNoTests()
    ensures Text(Summary([])) == Ansi.Success + "0 successes" + Ansi.Reset + " (of 0)\n"
  {
    assert Summary([]) == SummaryLine(Ansi.Success, 0, 0);
  }

  /** A run whose tests succeed, fail and are pending, in this order, prints
      `2 successes (of 3)` in red: the pending test is counted as a success. */
  lemma SummaryOfMixedTests()
    ensures Text(Summary([Success, Failure, Pending])) == Ansi.Failure + "2 successes" + Ansi.Reset + " (of 3)\n"
  {
    var outs := [Success, Failure, Pending];
    assert SuccessesIn(outs, 1) == 1 && PendsIn(outs, 1) == 0;
    assert SuccessesIn(outs, 2) == 1 && PendsIn(outs, 2) == 1;
    assert Successes(outs) == 2 && Pends(outs) == 2;
    assert Summary(outs) == SummaryLine(Ansi.Failure, 2, 3);
    assert Decimal(2) == "2" && Decimal(3) == "3";
  }

  /** A run in which nothing failed but a test is pending prints its summary
      in yellow, and counts the pending test among the successes. */
  lemma SummaryOfPendingTests()
    ensures Text(Summary([Success, Pending])) == Ansi.Pending + "2 successes" + Ansi.Reset + " (of 2)\n"
  {
    var outs := [Success, Pending];
    assert SuccessesIn(outs, 1) == 1 && PendsIn(outs, 1) == 0;
    assert Successes(outs) == 2 && Pends(outs) == 1;
    assert Summary(outs) == SummaryLine(Ansi.Pending, 2, 2);
    assert Decimal(2) == "2";
  }
}
