/** The chat timeline grouped by calendar month, and the assembly of every analysis
    into the data the presentation layer shows (lib/analyzer/index.ts). */
module Analyzer {
  import opened Wrappers
  import opened Seqs
  import opened Sorting
  import opened Assoc
  import opened Text
  import opened Types
  import opened StatsCalculator
  import opened LinguisticAnalyzer
  import opened ReactionAnalyzer

  /** The calendar month `new Date(timestamp)` falls in, in the local time zone:
      `getFullYear()` and `getMonth() + 1`. The time zone is not modelled, so the
      conversion is a parameter `monthOf` of the operations below. */
  datatype YearMonth = YearMonth(year: int, month: nat)

  predicate IsMonth(ym: YearMonth)
  {
    1 <= ym.month <= 12
  }

  /** `${year}-${String(month).padStart(2, '0')}`, e.g. "2024-03". */
  function MonthKey(ym: YearMonth): string
  {
    IntToDecimal(ym.year) + "-" + Pad2(ym.month)
  }

  function MessageMonth(monthOf: int -> YearMonth, m: ParsedMessage): string
  {
    MonthKey(monthOf(m.timestamp))
  }

  function MonthOfMessage(monthOf: int -> YearMonth): ParsedMessage -> string
  {
    (m: ParsedMessage) => MessageMonth(monthOf, m)
  }

  /** The month key of every message, in chat order. */
  function MonthKeys(msgs: seq<ParsedMessage>, monthOf: int -> YearMonth): seq<string>
  {
    Map(msgs, MonthOfMessage(monthOf))
  }

  // ---------------------------------------------------------------------------
  // Month keys

  /** Reading the two digits of `Pad2` back gives the month. */
  lemma Pad2Value(n: nat)
    requires n < 100
    ensures |Pad2(n)| == 2 && IsDigit(Pad2(n)[0]) && IsDigit(Pad2(n)[1])
    ensures DecimalValue(Pad2(n)) == n
  {
    var p := Pad2(n);
    if n < 10 {
      assert p == ['0', DigitChar(n)];
      assert p[..1] == ['0'];
      assert p[..1][..0] == [];
      assert DecimalValue(p[..1]) == 0;
      assert DecimalValue(p) == DecimalValue(p[..1]) * 10 + (p[1] as int - '0' as int);
    } else {
      DecimalRoundTrip(n);
    }
  }

  /** `String(year)` determines the year. */
  lemma IntToDecimalInjective(a: int, b: int)
    requires IntToDecimal(a) == IntToDecimal(b)
    ensures a == b
  {
    var s := IntToDecimal(a);
    assert s[0] == '-' <==> a < 0;
    assert s[0] == '-' <==> b < 0;
    if a >= 0 {
      DecimalRoundTrip(a);
      DecimalRoundTrip(b);
    } else {
      assert NatToDecimal(-a) == s[1..] == NatToDecimal(-b);
      DecimalRoundTrip(-a);
      DecimalRoundTrip(-b);
    }
  }

  /** A key is the year, a hyphen and two digits reading as the month; two months
      share a key only when they are the same month. */
  lemma MonthKeyFormat(ym: YearMonth)
    requires IsMonth(ym)
    ensures var k := MonthKey(ym);
      |k| >= 4 && k[|k| - 3] == '-' && k[..|k| - 3] == IntToDecimal(ym.year) &&
      IsDigit(k[|k| - 2]) && IsDigit(k[|k| - 1]) && DecimalValue(k[|k| - 2..]) == ym.month
  {
    var k := MonthKey(ym);
    var y := IntToDecimal(ym.year);
    Pad2Value(ym.month);
    assert |y| >= 1;
    assert k[|k| - 2..] == Pad2(ym.month);
    assert k[..|k| - 3] == y;
  }

  lemma MonthKeyInjective(a: YearMonth, b: YearMonth)
    requires IsMonth(a) && IsMonth(b) && MonthKey(a) == MonthKey(b)
    ensures a == b
  {
    var k := MonthKey(a);
    MonthKeyFormat(a);
    MonthKeyFormat(b);
    IntToDecimalInjective(a.year, b.year);
  }

  // ---------------------------------------------------------------------------
  // Monthly buckets

  /** The `{ count, participants }` record of one month; the set of sender names is
      kept in insertion order. */
  datatype MonthBucket = MonthBucket(count: nat, participants: seq<string>)

  const EmptyBucket := MonthBucket(0, [])

  /** One loop step: the month's record, created empty on first sight, counts one
      more message and adds the sender. */
  function AddToMonth(b: seq<(string, MonthBucket)>, key: string, sender: string): seq<(string, MonthBucket)>
  {
    Put(b, key, NextBucket(b, key, sender))
  }

  function NextBucket(b: seq<(string, MonthBucket)>, key: string, sender: string): MonthBucket
  {
    var data := Get(b, key).GetOr(EmptyBucket);
    MonthBucket(data.count + 1, AddUnique(data.participants, sender))
  }

  /** `monthlyData` after the loop over `msgs`. */
  function Buckets(msgs: seq<ParsedMessage>, monthOf: int -> YearMonth): seq<(string, MonthBucket)>
  {
    if msgs == [] then []
    else
      var last := msgs[|msgs| - 1];
      AddToMonth(Buckets(msgs[..|msgs| - 1], monthOf), MessageMonth(monthOf, last), last.senderName)
  }

  function AsDataPoint(entry: (string, MonthBucket)): ChatHistoryDataPoint
  {
    ChatHistoryDataPoint(entry.0, entry.1.count, |entry.1.participants|)
  }

  /** `(a, b) => a.date.localeCompare(b.date)`, read as "may stay before". */
  predicate EarlierMonth(a: ChatHistoryDataPoint, b: ChatHistoryDataPoint)
  {
    StringLe(a.date, b.date)
  }

  /** `generateChatHistory`: one data point per month that has messages. */
  function ChatHistoryOf(msgs: seq<ParsedMessage>, monthOf: int -> YearMonth): seq<ChatHistoryDataPoint>
  {
    if msgs == [] then []
    else SortBy(Map(Buckets(msgs, monthOf), AsDataPoint), EarlierMonth)
  }

  method GenerateChatHistory(messages: seq<ParsedMessage>, monthOf: int -> YearMonth)
    returns (history: seq<ChatHistoryDataPoint>)
    ensures history == ChatHistoryOf(messages, monthOf)
  {
    if |messages| == 0 {
      return [];
    }
    var monthlyData := GroupByMonth(messages, monthOf);
    history := SortBy(Map(monthlyData, AsDataPoint), EarlierMonth);
  }

  /** The loop of `generateChatHistory` that fills `monthlyData`. */
  method GroupByMonth(messages: seq<ParsedMessage>, monthOf: int -> YearMonth)
    returns (monthlyData: seq<(string, MonthBucket)>)
    ensures monthlyData == Buckets(messages, monthOf)
  {
    monthlyData := [];
    for i := 0 to |messages|
      invariant monthlyData == Buckets(messages[..i], monthOf)
    {
      var msg := messages[i];
      var monthKey := MonthKey(monthOf(msg.timestamp));
      var data := Get(monthlyData, monthKey).GetOr(EmptyBucket);
      data := data.(count := data.count + 1);
      data := data.(participants := AddUnique(data.participants, msg.senderName));
      PutIsAddToMonth(monthlyData, monthKey, msg.senderName, data);
      monthlyData := Put(monthlyData, monthKey, data);
      BucketsSnoc(messages, monthOf, i);
    }
    assert messages[..|messages|] == messages;
  }

  lemma PutIsAddToMonth(b: seq<(string, MonthBucket)>, key: string, sender: string, data: MonthBucket)
    requires var prior := Get(b, key).GetOr(EmptyBucket);
      data == MonthBucket(prior.count + 1, AddUnique(prior.participants, sender))
    ensures data == NextBucket(b, key, sender)
    ensures Put(b, key, data) == AddToMonth(b, key, sender)
  {
  }

  lemma BucketsSnoc(msgs: seq<ParsedMessage>, monthOf: int -> YearMonth, i: nat)
    requires i < |msgs|
    ensures Buckets(msgs[..i + 1], monthOf) ==
      AddToMonth(Buckets(msgs[..i], monthOf), MessageMonth(monthOf, msgs[i]), msgs[i].senderName)
  {
    assert msgs[..i + 1][..i] == msgs[..i];
  }

  // ---------------------------------------------------------------------------
  // Reference definition: a month's messages

  /** The messages of one month, in order. */
  function InMonth(key: string, msgs: seq<ParsedMessage>, monthOf: int -> YearMonth): seq<ParsedMessage>
  {
    if msgs == [] then []
    else
      var last := msgs[|msgs| - 1];
      InMonth(key, msgs[..|msgs| - 1], monthOf) + (if MessageMonth(monthOf, last) == key then [last] else [])
  }

  /** What a month's record should hold: how many messages fall in it and who sent
      them, each name once, in order of first message. */
  function MonthTotals(key: string, msgs: seq<ParsedMessage>, monthOf: int -> YearMonth): MonthBucket
  {
    var ms := InMonth(key, msgs, monthOf);
    MonthBucket(|ms|, Distinct(Senders(ms)))
  }

  lemma {:induction false} InMonthMembers(key: string, msgs: seq<ParsedMessage>, monthOf: int -> YearMonth)
    ensures forall m :: m in InMonth(key, msgs, monthOf) <==> m in msgs && MessageMonth(monthOf, m) == key
  {
    if msgs != [] {
      InMonthMembers(key, msgs[..|msgs| - 1], monthOf);
      SplitLast(msgs);
    }
  }

  lemma MonthTotalsStep(key: string, msgs: seq<ParsedMessage>, monthOf: int -> YearMonth)
    requires msgs != []
    ensures var init := msgs[..|msgs| - 1];
      var last := msgs[|msgs| - 1];
      var prev := MonthTotals(key, init, monthOf);
      MonthTotals(key, msgs, monthOf) ==
        if MessageMonth(monthOf, last) == key then MonthBucket(prev.count + 1, AddUnique(prev.participants, last.senderName))
        else prev
  {
    var init := msgs[..|msgs| - 1];
    var last := msgs[|msgs| - 1];
    var ms := InMonth(key, init, monthOf);
    if MessageMonth(monthOf, last) == key {
      var ms' := ms + [last];
      assert InMonth(key, msgs, monthOf) == ms';
      SendersSnoc(ms');
      assert ms'[..|ms'| - 1] == ms;
      DistinctSnoc(Senders(ms), last.senderName);
    } else {
      assert InMonth(key, msgs, monthOf) == ms;
    }
  }

  lemma MonthTotalsUnseen(key: string, msgs: seq<ParsedMessage>, monthOf: int -> YearMonth)
    requires key !in MonthKeys(msgs, monthOf)
    ensures MonthTotals(key, msgs, monthOf) == EmptyBucket
  {
    forall i | 0 <= i < |msgs| ensures MessageMonth(monthOf, msgs[i]) != key {
      assert MonthKeys(msgs, monthOf)[i] == MessageMonth(monthOf, msgs[i]);
    }
    InMonthNone(key, msgs, monthOf);
  }

  lemma {:induction false} InMonthNone(key: string, msgs: seq<ParsedMessage>, monthOf: int -> YearMonth)
    requires forall i :: 0 <= i < |msgs| ==> MessageMonth(monthOf, msgs[i]) != key
    ensures InMonth(key, msgs, monthOf) == []
  {
    if msgs != [] {
      InMonthNone(key, msgs[..|msgs| - 1], monthOf);
    }
  }

  lemma MonthKeysSnoc(msgs: seq<ParsedMessage>, monthOf: int -> YearMonth)
    requires msgs != []
    ensures MonthKeys(msgs, monthOf) ==
      MonthKeys(msgs[..|msgs| - 1], monthOf) + [MessageMonth(monthOf, msgs[|msgs| - 1])]
  {
    MapSnoc(msgs, MonthOfMessage(monthOf), |msgs| - 1);
    assert msgs[..|msgs|] == msgs;
  }

  /** The buckets hold one record per month with messages, in order of the month's
      first message, and each record is that month's totals. */
  predicate BucketsMatch(b: seq<(string, MonthBucket)>, msgs: seq<ParsedMessage>, monthOf: int -> YearMonth)
  {
    Keys(b) == Distinct(MonthKeys(msgs, monthOf)) &&
    forall i :: 0 <= i < |b| ==> b[i].1 == MonthTotals(b[i].0, msgs, monthOf)
  }

  lemma {:induction false} BucketsArePerMonth(msgs: seq<ParsedMessage>, monthOf: int -> YearMonth)
    ensures BucketsMatch(Buckets(msgs, monthOf), msgs, monthOf)
  {
    if msgs != [] {
      var init := msgs[..|msgs| - 1];
      BucketsArePerMonth(init, monthOf);
      BucketsAfterAdd(Buckets(init, monthOf), init, msgs[|msgs| - 1], monthOf);
      SplitLast(msgs);
    }
  }

  lemma BucketsAfterAdd(b0: seq<(string, MonthBucket)>, init: seq<ParsedMessage>, last: ParsedMessage,
                        monthOf: int -> YearMonth)
    requires BucketsMatch(b0, init, monthOf)
    ensures BucketsMatch(AddToMonth(b0, MessageMonth(monthOf, last), last.senderName), init + [last], monthOf)
  {
    var msgs := init + [last];
    var k := MessageMonth(monthOf, last);
    var v := NextBucket(b0, k, last.senderName);
    var b := Put(b0, k, v);
    PutEntries(b0, k, v);
    assert msgs[..|msgs| - 1] == init;
    MonthKeysSnoc(msgs, monthOf);
    DistinctSnoc(MonthKeys(init, monthOf), k);
    forall i | 0 <= i < |b| ensures b[i].1 == MonthTotals(b[i].0, msgs, monthOf) {
      BucketEntryAfterPut(b0, init, last, monthOf, v, i);
    }
  }

  lemma BucketEntryAfterPut(b0: seq<(string, MonthBucket)>, init: seq<ParsedMessage>, last: ParsedMessage,
                            monthOf: int -> YearMonth, v: MonthBucket, i: nat)
    requires BucketsMatch(b0, init, monthOf)
    requires v == NextBucket(b0, MessageMonth(monthOf, last), last.senderName)
    requires i < |Put(b0, MessageMonth(monthOf, last), v)|
    ensures var b := Put(b0, MessageMonth(monthOf, last), v);
      b[i].1 == MonthTotals(b[i].0, init + [last], monthOf)
  {
    var k := MessageMonth(monthOf, last);
    PutEntries(b0, k, v);
    if i < |b0| {
      assert b0[i].1 == MonthTotals(b0[i].0, init, monthOf);
      if b0[i].0 == k {
        SameMonthEntry(b0, init, last, monthOf, v, i);
      } else {
        OtherMonthEntry(b0, init, last, monthOf, v, i);
      }
    } else {
      NewMonthEntry(b0, init, last, monthOf, v, i);
    }
  }

  /** The month of the new message already had a record: it now counts that message. */
  lemma SameMonthEntry(b0: seq<(string, MonthBucket)>, init: seq<ParsedMessage>, last: ParsedMessage,
                       monthOf: int -> YearMonth, v: MonthBucket, i: nat)
    requires NoDuplicates(Keys(b0)) && i < |b0|
    requires b0[i].0 == MessageMonth(monthOf, last) && b0[i].1 == MonthTotals(b0[i].0, init, monthOf)
    requires v == NextBucket(b0, MessageMonth(monthOf, last), last.senderName)
    ensures var b := Put(b0, MessageMonth(monthOf, last), v);
      i < |b| && b[i].1 == MonthTotals(b[i].0, init + [last], monthOf)
  {
    var msgs := init + [last];
    var k := MessageMonth(monthOf, last);
    GetAt(b0, i);
    assert v == MonthBucket(b0[i].1.count + 1, AddUnique(b0[i].1.participants, last.senderName));
    PutAt(b0, k, v, i, i);
    assert msgs[..|msgs| - 1] == init && msgs[|msgs| - 1] == last;
    MonthTotalsStep(k, msgs, monthOf);
  }

  /** A record of another month is left as it was, and so are that month's totals. */
  lemma OtherMonthEntry(b0: seq<(string, MonthBucket)>, init: seq<ParsedMessage>, last: ParsedMessage,
                        monthOf: int -> YearMonth, v: MonthBucket, i: nat)
    requires NoDuplicates(Keys(b0)) && i < |b0|
    requires b0[i].0 != MessageMonth(monthOf, last) && b0[i].1 == MonthTotals(b0[i].0, init, monthOf)
    ensures var b := Put(b0, MessageMonth(monthOf, last), v);
      i < |b| && b[i].1 == MonthTotals(b[i].0, init + [last], monthOf)
  {
    var msgs := init + [last];
    var k := MessageMonth(monthOf, last);
    PutEntries(b0, k, v);
    assert Put(b0, k, v)[i] == b0[i];
    assert msgs[..|msgs| - 1] == init && msgs[|msgs| - 1] == last;
    MonthTotalsStep(b0[i].0, msgs, monthOf);
  }

  /** The first message of a month opens its record with that one message. */
  lemma NewMonthEntry(b0: seq<(string, MonthBucket)>, init: seq<ParsedMessage>, last: ParsedMessage,
                      monthOf: int -> YearMonth, v: MonthBucket, i: nat)
    requires NoDuplicates(Keys(b0)) && Keys(b0) == Distinct(MonthKeys(init, monthOf))
    requires v == NextBucket(b0, MessageMonth(monthOf, last), last.senderName)
    requires |b0| <= i < |Put(b0, MessageMonth(monthOf, last), v)|
    ensures var b := Put(b0, MessageMonth(monthOf, last), v);
      b[i].1 == MonthTotals(b[i].0, init + [last], monthOf)
  {
    var msgs := init + [last];
    var k := MessageMonth(monthOf, last);
    PutEntries(b0, k, v);
    assert k !in Keys(b0);
    assert Put(b0, k, v)[i] == (k, v);
    assert msgs[..|msgs| - 1] == init && msgs[|msgs| - 1] == last;
    MonthTotalsUnseen(k, init, monthOf);
    MonthTotalsStep(k, msgs, monthOf);
    assert MonthTotals(k, init, monthOf) == EmptyBucket;
    assert AddUnique([], last.senderName) == [last.senderName];
    assert MonthTotals(k, msgs, monthOf) == v;
  }

  // ---------------------------------------------------------------------------
  // Properties of the chat history

  function BucketCount(b: MonthBucket): nat { b.count }

  function PointCount(p: ChatHistoryDataPoint): nat { p.messageCount }

  function DateOf(p: ChatHistoryDataPoint): string { p.date }

  /** The records' counts add up to the number of messages. */
  lemma {:induction false} BucketsTotal(msgs: seq<ParsedMessage>, monthOf: int -> YearMonth)
    ensures SumOf(Values(Buckets(msgs, monthOf)), BucketCount) == |msgs|
  {
    if msgs != [] {
      var init := msgs[..|msgs| - 1];
      var last := msgs[|msgs| - 1];
      BucketsTotal(init, monthOf);
      BucketsArePerMonth(init, monthOf);
      SumAfterAdd(Buckets(init, monthOf), MessageMonth(monthOf, last), last.senderName);
    }
  }

  /** Adding a message to a month adds one to the sum of the counts. */
  lemma SumAfterAdd(b: seq<(string, MonthBucket)>, key: string, sender: string)
    requires NoDuplicates(Keys(b))
    ensures SumOf(Values(AddToMonth(b, key, sender)), BucketCount) == SumOf(Values(b), BucketCount) + 1
  {
    SumOfPut(b, key, NextBucket(b, key, sender), BucketCount);
  }

  /** The history's message counts add up to the number of messages. */
  lemma ChatHistoryTotal(msgs: seq<ParsedMessage>, monthOf: int -> YearMonth)
    ensures SumOf(ChatHistoryOf(msgs, monthOf), PointCount) == |msgs|
  {
    if msgs != [] {
      var b := Buckets(msgs, monthOf);
      var points := Map(b, AsDataPoint);
      BucketsTotal(msgs, monthOf);
      SumOfPointwise(Values(b), BucketCount, points, PointCount);
      SumOfSortBy(points, EarlierMonth, PointCount);
    }
  }

  /** Every data point is the month's number of messages and its number of distinct
      senders, so each month has at least one participant and no more participants
      than messages. */
  lemma ChatHistoryPoints(msgs: seq<ParsedMessage>, monthOf: int -> YearMonth, p: ChatHistoryDataPoint)
    requires p in ChatHistoryOf(msgs, monthOf)
    ensures var t := MonthTotals(p.date, msgs, monthOf);
      p.messageCount == t.count && p.participantCount == |t.participants| &&
      1 <= p.participantCount <= p.messageCount
  {
    var b := Buckets(msgs, monthOf);
    BucketsArePerMonth(msgs, monthOf);
    var i := PointSource(b, ChatHistoryOf(msgs, monthOf), p);
    MatchedEntrySize(b, msgs, monthOf, i);
  }

  /** A data point of a sorted history comes from one of the records. */
  lemma PointSource(b: seq<(string, MonthBucket)>, h: seq<ChatHistoryDataPoint>, p: ChatHistoryDataPoint)
    returns (i: nat)
    requires multiset(h) == multiset(Map(b, AsDataPoint)) && p in h
    ensures i < |b| && p == AsDataPoint(b[i])
  {
    var points := Map(b, AsDataPoint);
    assert p in multiset(points);
    i :| 0 <= i < |points| && points[i] == p;
  }

  /** A month with a record has at least one message, so at least one sender, and
      no more senders than messages. */
  lemma MatchedEntrySize(b: seq<(string, MonthBucket)>, msgs: seq<ParsedMessage>, monthOf: int -> YearMonth, i: nat)
    requires BucketsMatch(b, msgs, monthOf) && i < |b|
    ensures 1 <= |b[i].1.participants| <= b[i].1.count
  {
    var key := b[i].0;
    assert Keys(b)[i] == key;
    var keys := MonthKeys(msgs, monthOf);
    assert key in keys;
    var j :| 0 <= j < |keys| && keys[j] == key;
    assert MessageMonth(monthOf, msgs[j]) == key;
    var ms := InMonth(key, msgs, monthOf);
    InMonthMembers(key, msgs, monthOf);
    assert msgs[j] in ms;
    assert b[i].1 == MonthBucket(|ms|, Distinct(Senders(ms)));
    DistinctLength(Senders(ms));
  }

  /** The dates are exactly the months that have messages. */
  lemma ChatHistoryMonths(msgs: seq<ParsedMessage>, monthOf: int -> YearMonth)
    ensures forall d :: d in Map(ChatHistoryOf(msgs, monthOf), DateOf) <==> d in MonthKeys(msgs, monthOf)
  {
    if msgs != [] {
      var b := Buckets(msgs, monthOf);
      BucketsArePerMonth(msgs, monthOf);
      DatesOfPermutation(b, ChatHistoryOf(msgs, monthOf));
    }
  }

  lemma DatesOfPermutation(b: seq<(string, MonthBucket)>, h: seq<ChatHistoryDataPoint>)
    requires multiset(h) == multiset(Map(b, AsDataPoint))
    ensures forall d :: d in Map(h, DateOf) <==> d in Keys(b)
  {
    var points := Map(b, AsDataPoint);
    forall d ensures d in Map(h, DateOf) <==> d in Keys(b) {
      if d in Map(h, DateOf) {
        var i :| 0 <= i < |h| && h[i].date == d;
        assert h[i] in multiset(h);
        var j :| 0 <= j < |points| && points[j] == h[i];
        assert Keys(b)[j] == d;
      }
      if d in Keys(b) {
        var j :| 0 <= j < |b| && Keys(b)[j] == d;
        assert points[j] in multiset(h);
        var i :| 0 <= i < |h| && h[i] == points[j];
        assert Map(h, DateOf)[i] == d;
      }
    }
  }

  lemma EarlierMonthIsPreorder()
    ensures TotalPreorder(EarlierMonth)
  {
    StringLeIsPreorder();
    forall a, b ensures EarlierMonth(a, b) || EarlierMonth(b, a) {
      StringLeTotal(a.date, b.date);
    }
    forall a, b, c | EarlierMonth(a, b) && EarlierMonth(b, c) ensures EarlierMonth(a, c) {
      StringLeTransitive(a.date, b.date, c.date);
    }
  }

  /** The months come in strictly ascending order of their keys, each once. */
  lemma ChatHistoryAscending(msgs: seq<ParsedMessage>, monthOf: int -> YearMonth)
    ensures var h := ChatHistoryOf(msgs, monthOf);
      forall i, j :: 0 <= i < j < |h| ==> StringLe(h[i].date, h[j].date) && h[i].date != h[j].date
  {
    var h := ChatHistoryOf(msgs, monthOf);
    if msgs != [] {
      var b := Buckets(msgs, monthOf);
      var points := Map(b, AsDataPoint);
      BucketsArePerMonth(msgs, monthOf);
      EarlierMonthIsPreorder();
      SortBySorted(points, EarlierMonth);
      assert NoDuplicates(points) by {
        forall i, j | 0 <= i < j < |points| ensures points[i] != points[j] {
          assert Keys(b)[i] != Keys(b)[j];
        }
      }
      NoDuplicatesPermutation(points, h);
      forall i, j | 0 <= i < j < |h| ensures StringLe(h[i].date, h[j].date) && h[i].date != h[j].date {
        assert EarlierMonth(h[i], h[j]);
        SameDateSameMonth(b, h, i, j);
      }
    }
  }

  lemma SameDateSameMonth(b: seq<(string, MonthBucket)>, h: seq<ChatHistoryDataPoint>, i: nat, j: nat)
    requires NoDuplicates(Keys(b)) && NoDuplicates(h)
    requires multiset(h) == multiset(Map(b, AsDataPoint))
    requires i < j < |h|
    ensures h[i].date != h[j].date
  {
    var points := Map(b, AsDataPoint);
    assert h[i] in multiset(points) && h[j] in multiset(points);
    var p :| 0 <= p < |points| && points[p] == h[i];
    var q :| 0 <= q < |points| && points[q] == h[j];
    assert Keys(b)[p] == h[i].date && Keys(b)[q] == h[j].date;
    assert h[i] != h[j];
  }

  // ---------------------------------------------------------------------------
  // The whole analysis

  /** `analyzeChatData`: every analysis of the chat, each leaderboard cut at ten. */
  function WrappedDataOf(msgs: seq<ParsedMessage>, chatName: string, monthOf: int -> YearMonth, sqrt: real -> real)
    : WrappedData
  {
    var contributors := ContributorStatsOf(msgs);
    var reactions := ReactionStatsOf(msgs);
    WrappedData(
      chatName,
      ChatStatsOf(msgs),
      contributors,
      AllLinguisticStats(contributors, msgs, sqrt),
      TopReactedImages(reactions, DefaultLimit),
      TopReactedVideos(reactions, DefaultLimit),
      TopReactedText(reactions, DefaultLimit),
      ChatHistoryOf(msgs, monthOf),
      None)
  }

  method AnalyzeChatData(messages: seq<ParsedMessage>, chatName: string, monthOf: int -> YearMonth, sqrt: real -> real)
    returns (data: WrappedData)
    ensures data == WrappedDataOf(messages, chatName, monthOf, sqrt)
  {
    var stats := CalculateChatStats(messages);
    var contributors := CalculateContributorStats(messages);
    var linguisticStats := CalculateAllLinguisticStats(contributors, messages, sqrt);
    var allReactionStats := ReactionStatsOf(messages);
    var topReactedImages := TopReactedImages(allReactionStats, 10);
    var topReactedVideos := TopReactedVideos(allReactionStats, 10);
    var topReactedText := TopReactedText(allReactionStats, 10);
    var chatHistory := GenerateChatHistory(messages, monthOf);
    data := WrappedData(chatName, stats, contributors, linguisticStats,
                        topReactedImages, topReactedVideos, topReactedText, chatHistory, None);
  }

  /** The parts of the analysis agree with one another: the contributors' and the
      months' message counts both add up to the chat's total, every contributor has
      linguistic statistics, and each leaderboard holds at most ten messages of its
      kind that drew reactions. */
  lemma WrappedDataConsistent(msgs: seq<ParsedMessage>, chatName: string, monthOf: int -> YearMonth, sqrt: real -> real)
    ensures var w := WrappedDataOf(msgs, chatName, monthOf, sqrt);
      w.chatName == chatName && w.groupPhotoUri == None &&
      SumOf(w.contributors, MessageCountOf) == w.stats.totalMessages &&
      SumOf(w.chatHistory, PointCount) == w.stats.totalMessages &&
      Keys(w.linguisticStats) == Distinct(Map(w.contributors, ContributorName)) &&
      |w.topReactedImages| <= 10 && |w.topReactedVideos| <= 10 && |w.topReactedText| <= 10 &&
      (forall s :: s in w.topReactedImages ==> s in ReactionStatsOf(msgs) && IsImage(s)) &&
      (forall s :: s in w.topReactedVideos ==> s in ReactionStatsOf(msgs) && IsVideo(s)) &&
      (forall s :: s in w.topReactedText ==> s in ReactionStatsOf(msgs) && IsText(s))
  {
    var w := WrappedDataOf(msgs, chatName, monthOf, sqrt);
    ContributorStatsTotals(msgs);
    ChatHistoryTotal(msgs, monthOf);
    AllLinguisticStatsKeys(w.contributors, msgs, sqrt);
    var reactions := ReactionStatsOf(msgs);
    TopReactedShape(reactions, IsImage, 10);
    TopReactedShape(reactions, IsVideo, 10);
    TopReactedShape(reactions, IsText, 10);
  }
}
