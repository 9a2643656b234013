/** The usage ledger: the bot's `bot_data` dictionary, mapping a stripped
    question text to the number of times it has been delivered. */
module Ledger {

  type Usage = map<string, int>

  /** Every recorded question has been counted at least once. */
  ghost predicate AllPositive(m: Usage) {
    forall t :: t in m ==> m[t] >= 1
  }

  /** `bot_data[text] = bot_data.get(text, 0) + 1`. */
  function Bump(m: Usage, text: string): (r: Usage)
    ensures r.Keys == m.Keys + {text}
    ensures text !in m ==> r[text] == 1
    ensures text in m ==> r[text] == m[text] + 1
    ensures forall t :: t in m && t != text ==> r[t] == m[t]
  {
    m[text := (if text in m then m[text] else 0) + 1]
  }

  /** `sum(bot_data.values())`, which does not depend on the order in which
      the entries are visited (see `TotalWithout`). */
  ghost function Total(m: Usage): int
    decreases |m|
  {
    if m == map[] then 0
    else
      var t :| t in m;
      m[t] + Total(m - {t})
  }

  /** Taking any one entry out of the sum first gives the same total. */
  lemma {:induction false} TotalWithout(m: Usage, t: string)
    requires t in m
    ensures Total(m) == m[t] + Total(m - {t})
    decreases |m|
  {
    var u :| u in m && Total(m) == m[u] + Total(m - {u});
    if u != t {
      TotalWithout(m - {u}, t);
      TotalWithout(m - {t}, u);
      assert m - {u} - {t} == m - {t} - {u};
    }
  }

  /** An increment raises the total by exactly one. */
  lemma BumpTotal(m: Usage, text: string)
    ensures Total(Bump(m, text)) == Total(m) + 1
  {
    var r := Bump(m, text);
    TotalWithout(r, text);
    if text in m {
      TotalWithout(m, text);
      assert r - {text} == m - {text};
    } else {
      assert r - {text} == m;
    }
  }

  /** Increments keep every count positive. */
  lemma BumpPositive(m: Usage, text: string)
    requires AllPositive(m)
    ensures AllPositive(Bump(m, text))
  {
  }

  /** A ledger whose counts are all positive totals at least one per entry. */
  lemma {:induction false} TotalOfPositive(m: Usage)
    requires AllPositive(m)
    ensures Total(m) >= |m|
    decreases |m|
  {
    if m != map[] {
      var t :| t in m;
      TotalWithout(m, t);
      TotalOfPositive(m - {t});
    }
  }

  /** The ledger after a run of deliveries, one increment per delivered text. */
  function BumpAll(m: Usage, texts: seq<string>): (r: Usage)
    ensures r.Keys == m.Keys + set i | 0 <= i < |texts| :: texts[i]
    decreases |texts|
  {
    if texts == [] then m else BumpAll(Bump(m, texts[0]), texts[1..])
  }

  /** The number of times `t` occurs in `texts`. */
  function Occurrences(texts: seq<string>, t: string): nat
    decreases |texts|
  {
    if texts == [] then 0
    else (if texts[0] == t then 1 else 0) + Occurrences(texts[1..], t)
  }

  /** After a run of deliveries each text has been counted once per delivery:
      no increment is lost. */
  lemma {:induction false} BumpAllCounts(m: Usage, texts: seq<string>, t: string)
    ensures t in BumpAll(m, texts) <==> t in m || Occurrences(texts, t) > 0
    ensures t in BumpAll(m, texts) ==>
              BumpAll(m, texts)[t] == (if t in m then m[t] else 0) + Occurrences(texts, t)
    decreases |texts|
  {
    if texts != [] {
      BumpAllCounts(Bump(m, texts[0]), texts[1..], t);
    }
  }

  /** The total grows by exactly the number of deliveries. */
  lemma {:induction false} BumpAllTotal(m: Usage, texts: seq<string>)
    ensures Total(BumpAll(m, texts)) == Total(m) + |texts|
    decreases |texts|
  {
    if texts != [] {
      BumpTotal(m, texts[0]);
      BumpAllTotal(Bump(m, texts[0]), texts[1..]);
    }
  }
}
