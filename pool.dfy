/** The question pool that `init` loads: the list `questions_list` in corpus
    order and the dictionary `questions_dict` from MD5 hex digest to text. */
module Pool {
  import opened Base64

  datatype Option<T> = None | Some(value: T)

  /** Why reading a corpus line raised something other than `binascii.Error`,
      which `init` does not catch. */
  datatype Abort =
    | LineNotAscii   // `ValueError` from `str.encode('ascii')`
    | BytesNotUtf8   // `UnicodeDecodeError` from `bytes.decode()`

  datatype LineOutcome =
    | Question(text: string)     // decoded, appended and registered
    | Skipped(error: DecodeError) // `binascii.Error`: warning logged, line skipped
    | Aborted(reason: Abort)      // the exception leaves `init`

  /** `base64.standard_b64decode(line).decode()` for one line. `utf8` stands
      for `bytes.decode()`, which yields nothing on malformed UTF-8. */
  function ReadLine(line: string, utf8: seq<Byte> -> Option<string>): (r: LineOutcome)
    ensures r.Skipped? <==> IsAscii(line) && Decode(line).Failed?
    ensures r.Skipped? ==> r.error == Decode(line).error
    ensures r == Aborted(LineNotAscii) <==> !IsAscii(line)
    ensures r == Aborted(BytesNotUtf8) <==> Decode(line).Decoded? && utf8(Decode(line).bytes) == None
    ensures r.Question? <==> Decode(line).Decoded? && utf8(Decode(line).bytes).Some?
    ensures r.Question? ==> utf8(Decode(line).bytes) == Some(r.text)
  {
    match Decode(line)
    case Failed(NonAscii) => Aborted(LineNotAscii)
    case Failed(e) => Skipped(e)
    case Decoded(bytes) =>
      match utf8(bytes)
      case None => Aborted(BytesNotUtf8)
      case Some(q) => Question(q)
  }

  /** What `init` leaves behind for a list of lines: the questions it appended,
      in order, and the line whose exception ended it, if any. */
  datatype LoadReport = LoadReport(questions: seq<string>, abortedAt: Option<nat>)

  /** The effect of `init` on the lines of the corpus, one line at a time. */
  function Load(lines: seq<string>, utf8: seq<Byte> -> Option<string>): (r: LoadReport)
    ensures |r.questions| <= |lines|
    ensures r.abortedAt.Some? ==> r.abortedAt.value < |lines|
    decreases |lines|
  {
    if lines == [] then LoadReport([], None)
    else
      var before := Load(lines[..|lines| - 1], utf8);
      if before.abortedAt.Some? then before
      else match ReadLine(lines[|lines| - 1], utf8)
        case Question(q) => LoadReport(before.questions + [q], None)
        case Skipped(_) => before
        case Aborted(_) => LoadReport(before.questions, Some(|lines| - 1))
  }

  /** Loading is line by line in file order: the questions of `a + b` are those
      of `a` followed by those of `b`, unless `a` already ended the load. */
  lemma {:induction false} LoadConcat(a: seq<string>, b: seq<string>, utf8: seq<Byte> -> Option<string>)
    requires Load(a, utf8).abortedAt == None
    ensures Load(a + b, utf8).questions == Load(a, utf8).questions + Load(b, utf8).questions
    ensures Load(a + b, utf8).abortedAt ==
            match Load(b, utf8).abortedAt
            case None => None
            case Some(k) => Some(|a| + k)
    decreases |b|
  {
    if b == [] {
      assert a + b == a;
    } else {
      var b' := b[..|b| - 1];
      assert (a + b)[..|a + b| - 1] == a + b';
      assert (a + b)[|a + b| - 1] == b[|b| - 1];
      LoadConcat(a, b', utf8);
    }
  }

  /** A single line contributes its question if it decodes, and nothing if
      it raises `binascii.Error`. */
  lemma LoadOne(line: string, utf8: seq<Byte> -> Option<string>)
    ensures ReadLine(line, utf8).Question? ==> Load([line], utf8) == LoadReport([ReadLine(line, utf8).text], None)
    ensures ReadLine(line, utf8).Skipped? ==> Load([line], utf8) == LoadReport([], None)
    ensures ReadLine(line, utf8).Aborted? ==> Load([line], utf8) == LoadReport([], Some(0))
  {
    assert [line][..0] == [];
  }

  /** The next line of the corpus, read while the load is still going. */
  lemma LoadStep(lines: seq<string>, i: nat, utf8: seq<Byte> -> Option<string>)
    requires i < |lines| && Load(lines[..i], utf8).abortedAt == None
    ensures Load(lines[..i + 1], utf8) ==
            match ReadLine(lines[i], utf8)
            case Question(q) => LoadReport(Load(lines[..i], utf8).questions + [q], None)
            case Skipped(_) => Load(lines[..i], utf8)
            case Aborted(_) => LoadReport(Load(lines[..i], utf8).questions, Some(i))
  {
    assert lines[..i + 1][..i] == lines[..i];
  }

  /** A line raising `binascii.Error` leaves the loaded questions as they were
      and does not end the load. */
  lemma LoadSkipsFailedLine(lines: seq<string>, line: string, utf8: seq<Byte> -> Option<string>)
    requires Load(lines, utf8).abortedAt == None
    requires IsAscii(line) && Decode(line).Failed?
    ensures Load(lines + [line], utf8) == Load(lines, utf8)
  {
    assert (lines + [line])[..|lines|] == lines;
  }

  /** A line that decodes to UTF-8 text appends exactly that text. */
  lemma LoadAppendsDecodedLine(lines: seq<string>, line: string, utf8: seq<Byte> -> Option<string>, q: string)
    requires Load(lines, utf8).abortedAt == None
    requires Decode(line).Decoded? && utf8(Decode(line).bytes) == Some(q)
    ensures Load(lines + [line], utf8) == LoadReport(Load(lines, utf8).questions + [q], None)
  {
    assert (lines + [line])[..|lines|] == lines;
  }

  /** Once a line has ended the load, later lines change nothing. */
  lemma {:induction false} LoadStopsAtAbort(lines: seq<string>, k: nat, utf8: seq<Byte> -> Option<string>)
    requires k <= |lines| && Load(lines[..k], utf8).abortedAt.Some?
    ensures Load(lines, utf8) == Load(lines[..k], utf8)
    decreases |lines| - k
  {
    if k < |lines| {
      assert lines[..k + 1][..k] == lines[..k];
      LoadStopsAtAbort(lines, k + 1, utf8);
    } else {
      assert lines[..k] == lines;
    }
  }

  /** Every loaded question is the decoded text of some line. */
  lemma {:induction false} LoadedFromLines(lines: seq<string>, utf8: seq<Byte> -> Option<string>, q: string)
    requires q in Load(lines, utf8).questions
    ensures exists i :: 0 <= i < |lines| && ReadLine(lines[i], utf8) == Question(q)
    decreases |lines|
  {
    var init := lines[..|lines| - 1];
    var before := Load(init, utf8);
    if q in before.questions {
      LoadedFromLines(init, utf8, q);
      var i :| 0 <= i < |init| && ReadLine(init[i], utf8) == Question(q);
      assert lines[i] == init[i];
    } else {
      assert ReadLine(lines[|lines| - 1], utf8) == Question(q);
    }
  }

  /** The same line twice gives the same question twice: nothing removes
      duplicates from the list. */
  lemma DuplicatesKept(line: string, utf8: seq<Byte> -> Option<string>)
    requires ReadLine(line, utf8).Question?
    ensures Load([line, line], utf8).questions == [ReadLine(line, utf8).text, ReadLine(line, utf8).text]
  {
    LoadOne(line, utf8);
    LoadConcat([line], [line], utf8);
    assert [line] + [line] == [line, line];
  }

  /** `questions_dict[md5(q)] = q` for each loaded question in order; a later
      question with the same digest overwrites the earlier one. */
  function Register(index: map<string, string>, qs: seq<string>, md5: string -> string): (r: map<string, string>)
    ensures r.Keys == index.Keys + set i | 0 <= i < |qs| :: md5(qs[i])
    decreases |qs|
  {
    if qs == [] then index
    else Register(index, qs[..|qs| - 1], md5)[md5(qs[|qs| - 1]) := qs[|qs| - 1]]
  }

  /** Registering one more question files it under its digest. */
  lemma RegisterSnoc(index: map<string, string>, qs: seq<string>, q: string, md5: string -> string)
    ensures Register(index, qs + [q], md5) == Register(index, qs, md5)[md5(q) := q]
  {
    assert (qs + [q])[..|qs|] == qs;
  }

  /** A later question with the same digest overwrites an earlier one: the
      dictionary files each digest under the last loaded question that has it. */
  lemma {:induction false} RegisterLatest(index: map<string, string>, qs: seq<string>,
                                          md5: string -> string, j: int)
    requires 0 <= j < |qs|
    requires forall k :: j < k < |qs| ==> md5(qs[k]) != md5(qs[j])
    ensures md5(qs[j]) in Register(index, qs, md5)
    ensures Register(index, qs, md5)[md5(qs[j])] == qs[j]
    decreases |qs|
  {
    if j < |qs| - 1 {
      RegisterLatest(index, qs[..|qs| - 1], md5, j);
    }
  }

  /** A digest no loaded question has keeps what the dictionary held before. */
  lemma {:induction false} RegisterUntouched(index: map<string, string>, qs: seq<string>,
                                             md5: string -> string, h: string)
    requires h in index
    requires forall k :: 0 <= k < |qs| ==> md5(qs[k]) != h
    ensures Register(index, qs, md5)[h] == index[h]
    decreases |qs|
  {
    if qs != [] {
      RegisterUntouched(index, qs[..|qs| - 1], md5, h);
    }
  }

  /** The link between list and dictionary: every listed question is filed
      under its digest, and every filed text is listed under its own digest. */
  ghost predicate PoolInvariant(questions: seq<string>, index: map<string, string>, md5: string -> string) {
    && (forall i :: 0 <= i < |questions| ==> md5(questions[i]) in index)
    && (forall h :: h in index ==> md5(index[h]) == h && index[h] in questions)
  }

  /** Loading more questions keeps list and dictionary linked. */
  lemma {:induction false} RegisterKeepsInvariant(questions: seq<string>, index: map<string, string>,
                                                  qs: seq<string>, md5: string -> string)
    requires PoolInvariant(questions, index, md5)
    ensures PoolInvariant(questions + qs, Register(index, qs, md5), md5)
    decreases |qs|
  {
    if qs != [] {
      var init := qs[..|qs| - 1];
      var q := qs[|qs| - 1];
      RegisterKeepsInvariant(questions, index, init, md5);
      assert questions + qs == (questions + init) + [q];
    }
  }

  /** No other pooled question shares the digest of `questions[i]`. MD5 has
      collisions, so this is a fact about the pool, not about the digest. */
  ghost predicate UniqueDigest(questions: seq<string>, md5: string -> string, i: int)
    requires 0 <= i < |questions|
  {
    forall j :: 0 <= j < |questions| && md5(questions[j]) == md5(questions[i]) ==> questions[j] == questions[i]
  }

  /** The id of an inline candidate is the digest of its text, so looking it
      up succeeds and gives a text with the same digest; when no other pooled
      question shares that digest, it gives the candidate's own text. */
  lemma LookupCandidate(questions: seq<string>, index: map<string, string>, md5: string -> string, i: int)
    requires PoolInvariant(questions, index, md5) && 0 <= i < |questions|
    ensures md5(questions[i]) in index
    ensures md5(index[md5(questions[i])]) == md5(questions[i])
    ensures UniqueDigest(questions, md5, i) ==> index[md5(questions[i])] == questions[i]
  {
    var h := md5(questions[i]);
    if UniqueDigest(questions, md5, i) {
      var j :| 0 <= j < |questions| && questions[j] == index[h];
      assert md5(questions[j]) == h;
    }
  }
}
