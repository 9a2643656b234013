/** The handlers of the bot and the state they share: the question pool that
    `init` fills and the usage ledger `bot_data`. */
module Shuibiao {
  import opened Text
  import opened Base64
  import opened Pool
  import opened Ledger
  import opened Reporting

  /** The result id of the statistics entry in every inline answer. */
  const StatsId := "00000000000000000000000000000000"

  /** How many questions an inline answer offers. */
  const Candidates := 3

  /** An `InlineQueryResultArticle`, without its thumbnail URL. */
  datatype Article = Article(id: string, title: string, description: string, content: string)

  /** The inline result offering one question. */
  function QuestionArticle(text: string, md5: string -> string): (a: Article)
    ensures a.id == md5(a.content) && a.description == a.content && a.content == text
  {
    Article(md5(text), "我们建议你配合调查", text, text)
  }

  /** The inline result carrying the statistics text. */
  function StatsArticle(report: string): (a: Article)
    ensures a.id == StatsId && a.content == report
  {
    Article(StatsId, "调查统计", "据不完全统计，目前全网累计查水表次数……", report)
  }

  /** What `question_inline` does: answer with candidates, or fail because
      `random.sample` raised `ValueError` on a pool of fewer than three. */
  datatype InlineOutcome =
    | Answer(articles: seq<Article>, picks: seq<nat>)
    | PoolTooSmall

  /** What `chosen_result` does with a result id. */
  datatype Chosen =
    | StatsChosen            // the statistics entry: nothing to count
    | Counted(text: string)  // the stripped question text was counted
    | UnknownId              // `questions_dict[result_id]` raised `KeyError`

  /** A position of the pool not drawn yet. */
  predicate Undrawn(p: nat, n: nat, drawn: seq<nat>) {
    p < n && p !in drawn
  }

  /** `random.sample` of three positions out of `n`: distinct positions, or
      `ValueError` (nothing) when `n` is below three. Which positions are
      drawn is left open. */
  method Sample(n: nat) returns (picks: Option<seq<nat>>)
    ensures picks.None? <==> n < Candidates
    ensures picks.Some? ==>
              && |picks.value| == Candidates
              && (forall k :: 0 <= k < Candidates ==> picks.value[k] < n)
              && (forall k, l :: 0 <= k < l < Candidates ==> picks.value[k] != picks.value[l])
  {
    if n < Candidates {
      return None;
    }
    assert Undrawn(0, n, []);
    var p0: nat :| Undrawn(p0, n, []);
    assert Undrawn(p0, n, []);
    assert Undrawn(if p0 == 0 then 1 else 0, n, [p0]);
    var p1: nat :| Undrawn(p1, n, [p0]);
    assert Undrawn(p1, n, [p0]);
    assert Undrawn(if 0 != p0 && 0 != p1 then 0 else if 1 != p0 && 1 != p1 then 1 else 2, n, [p0, p1]);
    var p2: nat :| Undrawn(p2, n, [p0, p1]);
    assert Undrawn(p2, n, [p0, p1]);
    return Some([p0, p1, p2]);
  }

  class Bot {
    /** `hashlib.md5(q.encode()).hexdigest()`. */
    const md5: string -> string
    /** `bytes.decode()`, nothing on malformed UTF-8. */
    const utf8: seq<Byte> -> Option<string>

    /** `questions_list` */
    var questions: seq<string>
    /** `questions_dict` */
    var index: map<string, string>
    /** `context.bot_data` */
    var usage: Usage

    ghost predicate Valid()
      reads this
    {
      PoolInvariant(questions, index, md5)
    }

    /** The process before `init`: empty pool, ledger as restored from the
        persisted state. */
    constructor (md5: string -> string, utf8: seq<Byte> -> Option<string>, restored: Usage)
      ensures Valid()
      ensures this.md5 == md5 && this.utf8 == utf8
      ensures questions == [] && index == map[] && usage == restored
    {
      this.md5 := md5;
      this.utf8 := utf8;
      questions := [];
      index := map[];
      usage := restored;
    }

    /** `init`: reads the corpus line by line, appending every decoded question
        to the list and filing it in the dictionary under its digest. A line
        raising `binascii.Error` is skipped. Any other exception escapes `init`
        and ends the process before a handler runs; the model stops loading
        there and returns the line number. */
    method Init(lines: seq<string>) returns (abortedAt: Option<nat>)
      requires Valid()
      modifies this`questions, this`index
      ensures Valid()
      ensures questions == old(questions) + Load(lines, utf8).questions
      ensures index == Register(old(index), Load(lines, utf8).questions, md5)
      ensures abortedAt == Load(lines, utf8).abortedAt
    {
      var i := 0;
      while i < |lines|
        invariant 0 <= i <= |lines|
        invariant Load(lines[..i], utf8).abortedAt == None
        invariant questions == old(questions) + Load(lines[..i], utf8).questions
        invariant index == Register(old(index), Load(lines[..i], utf8).questions, md5)
        decreases |lines| - i
      {
        LoadStep(lines, i, utf8);
        match ReadLine(lines[i], utf8) {
          case Question(q) =>
            ghost var before := Load(lines[..i], utf8).questions;
            RegisterSnoc(old(index), before, q, md5);
            assert old(questions) + (before + [q]) == questions + [q];
            questions := questions + [q];
            index := index[md5(q) := q];
          case Skipped(_) =>
          case Aborted(_) =>
            LoadStopsAtAbort(lines, i + 1, utf8);
            RegisterKeepsInvariant(old(questions), old(index), Load(lines, utf8).questions, md5);
            return Some(i);
        }
        i := i + 1;
      }
      assert lines[..i] == lines;
      RegisterKeepsInvariant(old(questions), old(index), Load(lines, utf8).questions, md5);
      return None;
    }

    /** `/question`: picks any question, strips it, counts it and sends it.
        On an empty pool `random.choice` raises `IndexError` and nothing is
        counted. */
    method Question() returns (sent: Option<string>)
      modifies this`usage
      ensures questions == [] ==> sent == None && usage == old(usage)
      ensures questions != [] ==>
                && sent.Some?
                && (exists i :: 0 <= i < |questions| && sent.value == Strip(questions[i]))
                && usage == Bump(old(usage), sent.value)
    {
      if questions == [] {
        return None;
      }
      var i :| 0 <= i < |questions|;
      var text := Strip(questions[i]);
      usage := Bump(usage, text);
      return Some(text);
    }

    /** `get_stats`: the total, then the ranked entries up to the cut-off:
        the first three, and after them every entry whose count equals the
        one before it. */
    method GetStats() returns (result: string)
      ensures result == TopReport(usage)
    {
      var total := Sum(usage);
      var ranked := Sort(usage);
      RankingUnique(usage, ranked, Ranking(usage));
      result := RenderTop(ranked, total);
    }

    /** `question_inline`: three questions from distinct positions of the
        pool, each under the digest of its text, followed by the statistics
        entry. The ledger is not touched. */
    method InlineAnswer() returns (r: InlineOutcome)
      ensures r.PoolTooSmall? <==> |questions| < Candidates
      ensures r.Answer? ==>
                && |r.picks| == Candidates && |r.articles| == Candidates + 1
                && (forall k :: 0 <= k < Candidates ==> r.picks[k] < |questions|)
                && (forall k, l :: 0 <= k < l < Candidates ==> r.picks[k] != r.picks[l])
                && (forall k :: 0 <= k < Candidates ==>
                      r.articles[k] == QuestionArticle(questions[r.picks[k]], md5))
                && r.articles[Candidates] == StatsArticle(TopReport(usage))
    {
      var picks := Sample(|questions|);
      if picks == None {
        return PoolTooSmall;
      }
      var positions := picks.value;
      var articles := [];
      for k := 0 to Candidates
        invariant |articles| == k
        invariant forall j :: 0 <= j < k ==> articles[j] == QuestionArticle(questions[positions[j]], md5)
      {
        articles := articles + [QuestionArticle(questions[positions[k]], md5)];
      }
      var report := GetStats();
      articles := articles + [StatsArticle(report)];
      return Answer(articles, positions);
    }

    /** `chosen_result`: the statistics entry is ignored; any other id is
        looked up in the dictionary and the stripped text is counted. An id
        missing from the dictionary raises `KeyError` before anything is
        counted. */
    method ChosenResult(resultId: string) returns (c: Chosen)
      modifies this`usage
      ensures resultId == StatsId ==> c == StatsChosen && usage == old(usage)
      ensures resultId != StatsId && resultId !in index ==> c == UnknownId && usage == old(usage)
      ensures resultId != StatsId && resultId in index ==>
                c == Counted(Strip(index[resultId])) && usage == Bump(old(usage), Strip(index[resultId]))
    {
      if resultId == StatsId {
        return StatsChosen;
      }
      if resultId !in index {
        return UnknownId;
      }
      var text := Strip(index[resultId]);
      usage := Bump(usage, text);
      return Counted(text);
    }

    /** Choosing the candidate offered for `questions[i]`: `chosen_result` runs
        on the id the inline answer gave it. When no other pooled question
        shares the candidate's digest, its stripped text is counted, unless
        that digest happens to be the statistics id, in which case nothing
        is. */
    method ChooseOffered(i: nat) returns (c: Chosen)
      requires Valid() && i < |questions| && UniqueDigest(questions, md5, i)
      modifies this`usage
      ensures md5(questions[i]) != StatsId ==>
                c == Counted(Strip(questions[i])) && usage == Bump(old(usage), Strip(questions[i]))
      ensures md5(questions[i]) == StatsId ==> c == StatsChosen && usage == old(usage)
    {
      if md5(questions[i]) != StatsId {
        ChosenCandidateIsCounted(questions, index, md5, i);
      }
      c := ChosenResult(QuestionArticle(questions[i], md5).id);
    }

    /** `/stats`: every ranked entry, then the total line. */
    method Stats() returns (result: string)
      ensures result == FullReport(usage)
    {
      var total := Sum(usage);
      result := "";
      var ranked := Sort(usage);
      RankingUnique(usage, ranked, Ranking(usage));
      for i := 0 to |ranked|
        invariant result == Lines(ranked[..i])
      {
        assert ranked[..i + 1][..i] == ranked[..i];
        result := result + EntryLine(ranked[i]);
      }
      assert ranked[..|ranked|] == ranked;
      result := result + TotalLine(total);
    }
  }

  /** The id of an offered candidate leads back to that candidate's own
      text, provided no other pooled question shares its digest and the
      digest is not the statistics id. */
  lemma ChosenCandidateIsCounted(questions: seq<string>, index: map<string, string>,
                                 md5: string -> string, i: int)
    requires PoolInvariant(questions, index, md5) && 0 <= i < |questions|
    requires UniqueDigest(questions, md5, i) && md5(questions[i]) != StatsId
    ensures var id := QuestionArticle(questions[i], md5).id;
            && id != StatsId
            && id in index
            && index[id] == questions[i]
  {
    LookupCandidate(questions, index, md5, i);
  }

  /** The list keeps duplicates, so two distinct positions can hold the same
      text; the inline answer then offers two articles under one id. */
  lemma DuplicateOffersShareId(questions: seq<string>, md5: string -> string, p: int, q: int)
    requires 0 <= p < q < |questions| && questions[p] == questions[q]
    ensures QuestionArticle(questions[p], md5).id == QuestionArticle(questions[q], md5).id
  {
  }
}
