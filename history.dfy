/**
 * The bounded-context history manager: token estimation and trimming of the
 * conversation to a token budget, keeping the newest messages.
 */
module History {

  /** Who produced a message. */
  datatype Origin = Human | Ai

  /** A conversation message; only its text content matters for trimming. */
  datatype Message = Message(origin: Origin, content: string)

  /**
   * Which token counter is in use. `Library` stands for the external
   * tokenizer: it is an opaque function giving a non-negative count.
   * `Fallback` is the characters-over-four heuristic used when the library
   * cannot be loaded.
   */
  datatype Tokenizer = Fallback | Library(count: string -> nat)

  /** Estimated token count of a text: zero for empty text; otherwise the
      library count, or a quarter of the length rounded down but at least one. */
  function EstimateTokens(text: string, tokenizer: Tokenizer): (r: nat)
    ensures text == [] ==> r == 0
    ensures text != [] && tokenizer.Fallback? ==> 1 <= r
    ensures text != [] && tokenizer.Fallback? && |text| < 8 ==> r == 1
    ensures text != [] && tokenizer.Fallback? ==> 4 * r <= |text| || r == 1
    ensures text != [] && tokenizer.Fallback? ==> |text| < 4 * r + 4
    ensures text != [] && tokenizer.Library? ==> r == tokenizer.count(text)
  {
    if text == [] then 0
    else match tokenizer
      case Library(count) => count(text)
      case Fallback => if |text| / 4 < 1 then 1 else |text| / 4
  }

  function Tokens(m: Message, tokenizer: Tokenizer): nat {
    EstimateTokens(m.content, tokenizer)
  }

  /** The sum of the estimated tokens of a sequence of messages. */
  function Total(ms: seq<Message>, tokenizer: Tokenizer): nat {
    if ms == [] then 0 else Tokens(ms[0], tokenizer) + Total(ms[1..], tokenizer)
  }

  /** The total of the messages from index `i` on. */
  function SuffixTotal(ms: seq<Message>, tokenizer: Tokenizer, i: nat): nat
    requires i <= |ms|
  {
    Total(ms[i..], tokenizer)
  }

  /** Extending a suffix by one older message adds that message's count. */
  lemma SuffixTotalStep(ms: seq<Message>, tokenizer: Tokenizer, i: nat)
    requires 0 < i <= |ms|
    ensures SuffixTotal(ms, tokenizer, i - 1) == Tokens(ms[i - 1], tokenizer) + SuffixTotal(ms, tokenizer, i)
  {
    assert ms[i - 1..][1..] == ms[i..];
  }

  /** A longer suffix never has a smaller total, since every count is non-negative. */
  lemma {:induction false} TotalMonotone(ms: seq<Message>, tokenizer: Tokenizer, i: nat, j: nat)
    requires i <= j <= |ms|
    ensures SuffixTotal(ms, tokenizer, i) >= SuffixTotal(ms, tokenizer, j)
    decreases j - i
  {
    if i < j {
      SuffixTotalStep(ms, tokenizer, i + 1);
      TotalMonotone(ms, tokenizer, i + 1, j);
    }
  }

  /** The total of a one-message sequence is that message's count. */
  lemma TotalSingle(m: Message, tokenizer: Tokenizer)
    ensures Total([m], tokenizer) == Tokens(m, tokenizer)
  {
    assert [m][1..] == [];
  }

  /**
   * Reference search for where the kept suffix starts: the smallest start
   * index from `from` on whose suffix fits the budget, or the index of the
   * newest message when no longer suffix fits.
   */
  function FitStart(ms: seq<Message>, maxTokens: int, tokenizer: Tokenizer, from: nat): (k: nat)
    requires from < |ms|
    ensures from <= k < |ms|
    ensures k < |ms| - 1 ==> SuffixTotal(ms, tokenizer, k) <= maxTokens
    ensures forall j :: from <= j < k ==> SuffixTotal(ms, tokenizer, j) > maxTokens
    decreases |ms| - from
  {
    if from == |ms| - 1 then from
    else if SuffixTotal(ms, tokenizer, from) <= maxTokens then from
    else FitStart(ms, maxTokens, tokenizer, from + 1)
  }

  /**
   * What trimming keeps: empty for an empty conversation, otherwise the
   * longest suffix that fits the budget, or the newest message alone.
   */
  function Capped(ms: seq<Message>, maxTokens: int, tokenizer: Tokenizer): (r: seq<Message>)
    ensures ms == [] ==> r == []
    ensures ms != [] ==> 1 <= |r| <= |ms| && r == ms[|ms| - |r|..]
    ensures ms != [] ==> r[|r| - 1] == ms[|ms| - 1]
    ensures ms != [] ==>
              Total(r, tokenizer) <= maxTokens
              || (r == [ms[|ms| - 1]] && Tokens(ms[|ms| - 1], tokenizer) > maxTokens)
    ensures |r| < |ms| ==> Tokens(ms[|ms| - |r| - 1], tokenizer) + Total(r, tokenizer) > maxTokens
    ensures ms != [] && Tokens(ms[|ms| - 1], tokenizer) > maxTokens ==> r == [ms[|ms| - 1]]
  {
    if ms == [] then []
    else
      var k := FitStart(ms, maxTokens, tokenizer, 0);
      var r := ms[k..];
      assert k > 0 ==> SuffixTotal(ms, tokenizer, k - 1) > maxTokens by {
        if k > 0 { SuffixTotalStep(ms, tokenizer, k); }
      }
      assert k == |ms| - 1 ==> r == [ms[|ms| - 1]] && Total(r, tokenizer) == Tokens(ms[|ms| - 1], tokenizer) by {
        if k == |ms| - 1 { TotalSingle(ms[|ms| - 1], tokenizer); }
      }
      assert Tokens(ms[|ms| - 1], tokenizer) > maxTokens ==> k == |ms| - 1 by {
        if Tokens(ms[|ms| - 1], tokenizer) > maxTokens && k < |ms| - 1 {
          TotalMonotone(ms, tokenizer, k, |ms| - 1);
        }
      }
      r
  }

  /**
   * The greedy walk from the newest message stops at the start of the
   * longest fitting suffix: if every suffix from `k` on (save the newest
   * message alone) fits, and the suffix one older does not, then `k` is
   * where the reference search stops.
   */
  lemma GreedyAgreement(ms: seq<Message>, maxTokens: int, tokenizer: Tokenizer, k: nat)
    requires k < |ms|
    requires forall j :: k <= j < |ms| - 1 ==> SuffixTotal(ms, tokenizer, j) <= maxTokens
    requires k == 0 || SuffixTotal(ms, tokenizer, k - 1) > maxTokens
    ensures Capped(ms, maxTokens, tokenizer) == ms[k..]
  {
    var r := FitStart(ms, maxTokens, tokenizer, 0);
    assert k < |ms| - 1 ==> SuffixTotal(ms, tokenizer, k) <= maxTokens;
    if r < k {
      TotalMonotone(ms, tokenizer, r, k - 1);
      assert false;
    } else if r > k {
      assert false;
    }
    assert r == k;
  }

  /** The sequence in reverse order. */
  function Reverse(s: seq<Message>): (r: seq<Message>)
    ensures |r| == |s|
  {
    if s == [] then [] else Reverse(s[1..]) + [s[0]]
  }

  lemma {:induction false} ReverseAppend(s: seq<Message>, m: Message)
    ensures Reverse(s + [m]) == [m] + Reverse(s)
  {
    if s != [] {
      assert (s + [m])[1..] == s[1..] + [m];
      ReverseAppend(s[1..], m);
    }
  }

  /** Reversing twice restores the original order. */
  lemma {:induction false} ReverseReverse(s: seq<Message>)
    ensures Reverse(Reverse(s)) == s
  {
    if s != [] {
      ReverseReverse(s[1..]);
      ReverseAppend(Reverse(s[1..]), s[0]);
    }
  }

  /**
   * Trims a conversation to `maxTokens`: walks from the newest message
   * backwards, keeps messages while the running total fits (the newest is
   * kept unconditionally), stops at the first one that does not fit, and
   * restores chronological order.
   */
  method CapMessages(messages: seq<Message>, maxTokens: int, tokenizer: Tokenizer) returns (r: seq<Message>)
    ensures r == Capped(messages, maxTokens, tokenizer)
  {
    if messages == [] {
      return [];
    }
    var n := |messages|;
    var tokens := seq(n, i requires 0 <= i < n => Tokens(messages[i], tokenizer));

    var total := 0;
    var kept: seq<Message> := [];
    var i := n;
    while i > 0
      invariant 0 <= i <= n
      invariant kept == Reverse(messages[i..])
      invariant total == SuffixTotal(messages, tokenizer, i)
      invariant forall j :: i <= j < n - 1 ==> SuffixTotal(messages, tokenizer, j) <= maxTokens
    {
      var message, tokenCount := messages[i - 1], tokens[i - 1];
      if total + tokenCount > maxTokens && kept != [] {
        break;
      }
      SuffixTotalStep(messages, tokenizer, i);
      kept := kept + [message];
      total := total + tokenCount;
      i := i - 1;
    }

    ReverseReverse(messages[i..]);
    kept := Reverse(kept);

    if kept[|kept| - 1] != messages[n - 1] {
      // Defensive rebuild: cannot happen, since the walk keeps the newest message first.
      assert false;
      r := RebuildFromNewest(messages, maxTokens, tokenizer);
      return;
    }
    GreedyAgreement(messages, maxTokens, tokenizer, i);
    r := kept;
  }

  /**
   * The defensive rebuild path: starts again from the newest message alone
   * and prepends older messages while they fit. Its `>=` test sends the
   * newest message back alone as soon as it uses up the whole budget.
   */
  method RebuildFromNewest(messages: seq<Message>, maxTokens: int, tokenizer: Tokenizer) returns (r: seq<Message>)
    requires messages != []
    ensures Tokens(messages[|messages| - 1], tokenizer) >= maxTokens ==> r == [messages[|messages| - 1]]
    ensures Tokens(messages[|messages| - 1], tokenizer) < maxTokens ==> r == Capped(messages, maxTokens, tokenizer)
  {
    var n := |messages|;
    var lastMessage := messages[n - 1];
    var lastMessageTokens := Tokens(lastMessage, tokenizer);
    if lastMessageTokens >= maxTokens {
      return [lastMessage];
    }
    var total := lastMessageTokens;
    var rebuilt := [lastMessage];
    var i := n - 1;
    TotalSingle(lastMessage, tokenizer);
    assert messages[n - 1..] == [lastMessage];
    while i > 0
      invariant 0 <= i <= n - 1
      invariant rebuilt == messages[i..]
      invariant total == SuffixTotal(messages, tokenizer, i)
      invariant forall j :: i <= j < n - 1 ==> SuffixTotal(messages, tokenizer, j) <= maxTokens
    {
      var tokenCount := Tokens(messages[i - 1], tokenizer);
      if total + tokenCount > maxTokens {
        break;
      }
      SuffixTotalStep(messages, tokenizer, i);
      rebuilt := [messages[i - 1]] + rebuilt;
      total := total + tokenCount;
      i := i - 1;
    }
    GreedyAgreement(messages, maxTokens, tokenizer, i);
    r := rebuilt;
  }

  /** Trimming an already trimmed conversation changes nothing. */
  lemma CappedIdempotent(ms: seq<Message>, maxTokens: int, tokenizer: Tokenizer)
    ensures Capped(Capped(ms, maxTokens, tokenizer), maxTokens, tokenizer) == Capped(ms, maxTokens, tokenizer)
  {
  }

  /**
   * The rebuild's `>=` test is stricter than the walk: when the newest
   * message uses up the budget exactly, the walk still keeps older
   * zero-token messages, where the rebuild would keep the newest alone.
   */
  lemma RebuildThresholdDiffers()
    ensures var ms := [Message(Human, ""), Message(Ai, "abcd")];
      Tokens(ms[1], Fallback) >= 1 && Capped(ms, 1, Fallback) == ms
  {
  }

  /** With a budget of 0, a trailing run of empty messages is kept whole:
      here two empty messages are both kept. */
  lemma ZeroBudgetKeepsEmptyMessages()
    ensures var ms := [Message(Human, ""), Message(Ai, "")];
      Capped(ms, 0, Fallback) == ms
  {
  }

  /** A negative budget keeps the newest message alone: once it is kept, the
      running total is non-negative and every older message overflows. */
  lemma NegativeBudgetKeepsNewestOnly(ms: seq<Message>, maxTokens: int, tokenizer: Tokenizer)
    requires ms != [] && maxTokens < 0
    ensures Capped(ms, maxTokens, tokenizer) == [ms[|ms| - 1]]
  {
    var r := Capped(ms, maxTokens, tokenizer);
    if |r| > 1 {
      assert Total(r, tokenizer) >= 0;
    }
  }
}
