/**
 * The logic of `pinecone_client.py` that does not talk to Pinecone: the validation
 * and filtering that `upsert_data` applies before it sends the records, and the loop
 * of `build_context` that joins the texts of the search hits under a token budget.
 */
module PineconeClient {
  import opened Wrappers
  import opened Text
  import opened Records
  import opened FileProcessor

  // ===========================================================================
  // upsert_data: validation and filtering
  // ===========================================================================

  /** Why a record is skipped, in the order the checks are made. */
  datatype Reason =
    | InvalidText       // `text` missing, empty or not a string
    | TooShort          // fewer than 3 characters once stripped
    | MissingId         // `_id` missing or falsy
    | MissingAssistant  // `assistant` missing or falsy

  /** The minimum length of a stripped text. */
  const MinTextLength: int := 3

  /** The first check a record fails, or None when it passes them all. */
  function Rejection(r: Record): Option<Reason> {
    if !Truthy(r.text) || !r.text.Str? then Some(InvalidText)
    else if |Strip(r.text.s)| == 0 || |Strip(r.text.s)| < MinTextLength then Some(TooShort)
    else if !Truthy(r.id) then Some(MissingId)
    else if !Truthy(r.assistant) then Some(MissingAssistant)
    else None
  }

  predicate Accepted(r: Record) {
    Rejection(r).None?
  }

  /** An accepted record with its text replaced by the stripped text. */
  function Cleaned(r: Record): Record
    requires r.text.Str?
  {
    r.(text := Str(Strip(r.text.s)))
  }

  /** A record after the loop has seen it: accepted ones get their text stripped in
      place, skipped ones are left alone. */
  function Normalise(r: Record): Record {
    if Accepted(r) then Cleaned(r) else r
  }

  /** `valid_records`: the accepted records, cleaned, in their input order. */
  function Kept(rs: seq<Record>): seq<Record> {
    if rs == [] then []
    else
      var r := rs[|rs| - 1];
      Kept(rs[..|rs| - 1]) + (if Accepted(r) then [Cleaned(r)] else [])
  }

  /** `filtered_count`: the number of skipped records. */
  function FilteredCount(rs: seq<Record>): nat {
    if rs == [] then 0
    else FilteredCount(rs[..|rs| - 1]) + (if Accepted(rs[|rs| - 1]) then 0 else 1)
  }

  /** The two ValueErrors `upsert_data` raises before it contacts Pinecone. */
  datatype UpsertError = NoRecordsProvided | NoValidRecords(filtered: nat)

  /** The records `upsert_data` hands to the index, or the error it raises first. */
  function Validated(rs: seq<Record>): Result<seq<Record>, UpsertError> {
    if |rs| == 0 then Failure(NoRecordsProvided)
    else if Kept(rs) == [] then Failure(NoValidRecords(FilteredCount(rs)))
    else Success(Kept(rs))
  }

  /** The validation part of `upsert_data`. The caller's records are updated in place:
      every accepted record receives its stripped text, the others stay as they were. */
  method PrepareUpsert(records: array<Record>) returns (result: Result<seq<Record>, UpsertError>)
    modifies records
    ensures result == Validated(old(records[..]))
    ensures forall k :: 0 <= k < records.Length ==> records[k] == Normalise(old(records[k]))
  {
    if records.Length == 0 {
      return Failure(NoRecordsProvided);
    }
    var validRecords: seq<Record> := [];
    var filteredCount: nat := 0;
    for i := 0 to records.Length
      invariant validRecords == Kept(old(records[..])[..i])
      invariant filteredCount == FilteredCount(old(records[..])[..i])
      invariant forall k :: 0 <= k < i ==> records[k] == Normalise(old(records[k]))
      invariant forall k :: i <= k < records.Length ==> records[k] == old(records[k])
    {
      assert old(records[..])[..i + 1][..i] == old(records[..])[..i];
      var record := records[i];
      var text := record.text;
      if !Truthy(text) || !text.Str? {
        filteredCount := filteredCount + 1;
        continue;
      }
      var textStripped := Strip(text.s);
      if |textStripped| == 0 || |textStripped| < MinTextLength {
        filteredCount := filteredCount + 1;
        continue;
      }
      if !Truthy(record.id) {
        filteredCount := filteredCount + 1;
        continue;
      }
      if !Truthy(record.assistant) {
        filteredCount := filteredCount + 1;
        continue;
      }
      record := record.(text := Str(textStripped));
      records[i] := record;
      validRecords := validRecords + [record];
    }
    assert old(records[..])[..records.Length] == old(records[..]);
    if |validRecords| == 0 {
      return Failure(NoValidRecords(filteredCount));
    }
    return Success(validRecords);
  }

  // ---------------------------------------------------------------------------
  // Properties of the validation
  // ---------------------------------------------------------------------------

  /** A record is kept exactly when its text is a string of at least three characters
      once stripped and its `_id` and `assistant` are truthy. */
  lemma AcceptedIff(r: Record)
    ensures Accepted(r) <==>
              r.text.Str? && |Strip(r.text.s)| >= MinTextLength && Truthy(r.id) && Truthy(r.assistant)
  {
  }

  /** The loop changes nothing but the text of an accepted record, which becomes the
      stripped text; a skipped record is left exactly as it was. */
  lemma NormaliseChangesOnlyText(r: Record)
    ensures Normalise(r).id == r.id && Normalise(r).assistant == r.assistant
    ensures Accepted(r) ==> Normalise(r).text == Str(Strip(r.text.s))
    ensures !Accepted(r) ==> Normalise(r) == r
  {
  }

  /** One record on its own is kept, cleaned, exactly when it is accepted; with
      `KeptAppend` this fixes the output as the accepted records in input order. */
  lemma KeptSingleton(r: Record)
    ensures Kept([r]) == if Accepted(r) then [Cleaned(r)] else []
    ensures FilteredCount([r]) == if Accepted(r) then 0 else 1
  {
    assert [r][..0] == [];
  }

  /** Every record is either kept or counted as filtered. */
  lemma {:induction false} CountsAddUp(rs: seq<Record>)
    ensures |Kept(rs)| + FilteredCount(rs) == |rs|
  {
    if rs != [] {
      CountsAddUp(rs[..|rs| - 1]);
    }
  }

  /** Validation works record by record: it distributes over concatenation. */
  lemma {:induction false} KeptAppend(a: seq<Record>, b: seq<Record>)
    ensures Kept(a + b) == Kept(a) + Kept(b)
    ensures FilteredCount(a + b) == FilteredCount(a) + FilteredCount(b)
    decreases |b|
  {
    if b == [] {
      assert a + b == a;
    } else {
      var b' := b[..|b| - 1];
      assert (a + b)[..|a + b| - 1] == a + b';
      assert (a + b)[|a + b| - 1] == b[|b| - 1];
      KeptAppend(a, b');
    }
  }

  /** `r` passes the checks and its text is already stripped. */
  predicate Passes(r: Record) {
    Accepted(r) && r.text.Str? && Strip(r.text.s) == r.text.s
  }

  ghost predicate AllPass(rs: seq<Record>) {
    forall k :: 0 <= k < |rs| ==> Passes(rs[k])
  }

  lemma AllPassAppend(a: seq<Record>, b: seq<Record>)
    requires AllPass(a) && AllPass(b)
    ensures AllPass(a + b)
  {
    forall k | 0 <= k < |a + b| ensures Passes((a + b)[k]) {
      if k < |a| {
        assert (a + b)[k] == a[k];
      } else {
        assert (a + b)[k] == b[k - |a|];
      }
    }
  }

  /** Every kept record passes the checks again, and its text is already stripped. */
  lemma {:induction false} KeptRecordsPass(rs: seq<Record>)
    ensures AllPass(Kept(rs))
  {
    if rs != [] {
      var init, r := rs[..|rs| - 1], rs[|rs| - 1];
      KeptRecordsPass(init);
      if Accepted(r) {
        var c := Cleaned(r);
        assert Passes(c) by {
          StripIdempotent(r.text.s);
        }
        assert AllPass([c]);
        AllPassAppend(Kept(init), [c]);
      } else {
        assert Kept(rs) == Kept(init) + [];
        assert Kept(init) + [] == Kept(init);
      }
    }
  }

  /** Validating the validated records keeps all of them unchanged and skips none. */
  lemma KeptIdempotent(rs: seq<Record>)
    ensures Kept(Kept(rs)) == Kept(rs)
    ensures FilteredCount(Kept(rs)) == 0
  {
    KeptRecordsPass(rs);
    PassingRecordsKept(Kept(rs));
  }

  /** Records that all pass and carry stripped texts come through unchanged. */
  lemma {:induction false} PassingRecordsKept(rs: seq<Record>)
    requires AllPass(rs)
    ensures Kept(rs) == rs && FilteredCount(rs) == 0
  {
    if rs != [] {
      var init := rs[..|rs| - 1];
      PassingRecordsKept(init);
      var r := rs[|rs| - 1];
      assert Passes(r);
      assert Cleaned(r) == r;
      assert init + [r] == rs;
    }
  }

  /** When `upsert_data` raises "no valid records", the count it reports is the number
      of records it was given: all of them were filtered out. On success it sends
      every record that was not filtered and no other. */
  lemma ValidatedCounts(rs: seq<Record>)
    ensures Validated(rs).Failure? && Validated(rs).error.NoValidRecords? ==>
              Validated(rs).error.filtered == |rs| > 0
    ensures Validated(rs).Success? ==> 0 < |Validated(rs).value| == |rs| - FilteredCount(rs)
  {
    CountsAddUp(rs);
  }

  /** A non-empty batch whose records all fail a check is refused with "no valid
      records", reporting every record as filtered. */
  lemma AllRejected(rs: seq<Record>)
    requires |rs| > 0 && forall k :: 0 <= k < |rs| ==> !Accepted(rs[k])
    ensures Kept(rs) == [] && FilteredCount(rs) == |rs|
    ensures Validated(rs) == Failure(NoValidRecords(|rs|))
  {
  }

  /** The records formatted from chunks that are stripped and at least three characters
      long, for a non-empty assistant, all pass validation unchanged. */
  lemma FormattedRecordsPass(chunks: seq<string>, assistant: string, baseId: Option<string>)
    requires forall k :: 0 <= k < |chunks| ==> Strip(chunks[k]) == chunks[k] && |chunks[k]| >= MinTextLength
    requires assistant != []
    ensures var rs := Formatted(chunks, assistant, baseId);
            Kept(rs) == rs && FilteredCount(rs) == 0 &&
            (chunks != [] ==> Validated(rs) == Success(rs))
  {
    var rs := Formatted(chunks, assistant, baseId);
    forall k | 0 <= k < |rs| ensures Passes(rs[k]) {
      var id := RecordId(BaseId(assistant, baseId), k + 1);
      assert rs[k] == Record(Str(id), Str(chunks[k]), Str(assistant));
      assert |id| > 0;
    }
    PassingRecordsKept(rs);
  }

  /** The chunker's output is stripped, so formatted chunks keep their text. */
  lemma ChunksAreStripped(text: string, chunkSize: int, overlap: int)
    requires 0 < chunkSize && overlap <= chunkSize / 2
    ensures forall c :: c in Chunks(text, chunkSize, overlap) ==> Strip(c) == c
  {
    ChunksAreStrippedSlices(text, chunkSize, overlap);
    forall c | c in Chunks(text, chunkSize, overlap) ensures Strip(c) == c {
      var lo, hi :| 0 <= lo <= hi <= |Strip(text)| && hi - lo <= chunkSize && c == Strip(Strip(text)[lo..hi]);
      StripIdempotent(Strip(text)[lo..hi]);
    }
  }

  /** The empty chunk the chunker can emit is dropped again by the validation. */
  lemma EmptyChunkIsFiltered(t: string, assistant: string, baseId: Option<string>)
    requires t == "ab      cd"
    ensures var rs := Formatted(Chunks(t, 4, 1), assistant, baseId);
            |rs| > 1 && Rejection(rs[1]) == Some(InvalidText)
  {
    EmptyChunkCanBeEmitted(t);
  }

  // ===========================================================================
  // build_context: joining hits under a token budget
  // ===========================================================================

  /** The tokenizer, given as its two operations on token ids. */
  datatype Tokenizer = Tokenizer(encode: string -> seq<int>, decode: seq<int> -> string)

  /** The tokens one whole hit costs: the encoding of the hit's text after a space. */
  function Cost(tok: Tokenizer, hit: string): nat {
    |tok.encode(" " + hit)|
  }

  /** The tokens the hits before index `j` cost together, as the loop adds them up. */
  function Tokens(tok: Tokenizer, hs: seq<string>, j: nat): nat
    requires j <= |hs|
  {
    if j == 0 then 0 else Tokens(tok, hs, j - 1) + Cost(tok, hs[j - 1])
  }

  /** The hits from index `i` up to `j`, each after a space, concatenated. */
  function Joined(hs: seq<string>, i: nat, j: nat): string
    requires i <= j <= |hs|
    decreases j - i
  {
    if i == j then "" else " " + hs[i] + Joined(hs, i + 1, j)
  }

  /** What the loop adds for the first hit that does not fit, with `remaining` tokens
      left: a space and the decoding of the first `remaining` tokens of the hit's text,
      or nothing when no token is left or the text encodes to no token. */
  function Fragment(tok: Tokenizer, hit: string, remaining: int): string {
    var encoded := tok.encode(hit);
    if remaining > 0 && |encoded| > 0 then " " + tok.decode(encoded[..Min(remaining, |encoded|)])
    else ""
  }

  /** The text the loop appends from hit `i` on, with `used` tokens spent. */
  function Fill(tok: Tokenizer, hs: seq<string>, i: nat, maxTokens: int, used: int): string
    requires i <= |hs|
    decreases |hs| - i
  {
    if i == |hs| then ""
    else if used + Cost(tok, hs[i]) > maxTokens then Fragment(tok, hs[i], maxTokens - used)
    else " " + hs[i] + Fill(tok, hs, i + 1, maxTokens, used + Cost(tok, hs[i]))
  }

  /** What `build_context` returns for the hits of the search: None without hits. */
  function Assemble(tok: Tokenizer, hits: seq<string>, maxTokens: int := 7000): Option<string> {
    if |hits| == 0 then None else Some(Fill(tok, hits, 0, maxTokens, 0))
  }

  /** The loop of `build_context` after the search; `hits` are the texts of the hits,
      in the order the index ranks them. */
  method BuildContext(tok: Tokenizer, hits: seq<string>, maxTokens: int := 7000) returns (result: Option<string>)
    ensures result == Assemble(tok, hits, maxTokens)
  {
    var context := "";
    if |hits| == 0 {
      return None;
    }
    var currentTokens := 0;
    var i := 0;
    while i < |hits|
      invariant 0 <= i <= |hits|
      invariant context + Fill(tok, hits, i, maxTokens, currentTokens) == Fill(tok, hits, 0, maxTokens, 0)
    {
      var hit := hits[i];
      var textToAdd := " " + hit;
      var tokensToAdd := |tok.encode(textToAdd)|;
      if currentTokens + tokensToAdd > maxTokens {
        var partial := PartialHit(tok, hit, maxTokens - currentTokens);
        assert Fill(tok, hits, i, maxTokens, currentTokens) == partial;
        context := context + partial;
        break;
      }
      var later := Fill(tok, hits, i + 1, maxTokens, currentTokens + tokensToAdd);
      assert Fill(tok, hits, i, maxTokens, currentTokens) == textToAdd + later;
      ConcatAssoc(context, textToAdd, later);
      context := context + textToAdd;
      currentTokens := currentTokens + tokensToAdd;
      i := i + 1;
    }
    assert i == |hits| ==> context + "" == context;
    return Some(context);
  }

  /** The overflow branch of the loop: with `remainingTokens` left, the space and the
      decoded first tokens of the hit that does not fit, or nothing. */
  method PartialHit(tok: Tokenizer, hit: string, remainingTokens: int) returns (partial: string)
    ensures partial == Fragment(tok, hit, remainingTokens)
  {
    partial := "";
    if remainingTokens > 0 {
      var encodedText := tok.encode(hit);
      if |encodedText| > 0 {
        var partialEncoded := encodedText[..Min(remainingTokens, |encodedText|)];
        var partialText := tok.decode(partialEncoded);
        partial := " " + partialText;
      }
    }
  }

  // ---------------------------------------------------------------------------
  // Properties of the context assembly
  // ---------------------------------------------------------------------------

  /** The index of the first hit from `i` on that is not added whole, with `used`
      tokens already spent; `|hs|` when every hit is. */
  function FitCount(tok: Tokenizer, hs: seq<string>, i: nat, maxTokens: int, used: int): (k: nat)
    requires i <= |hs|
    ensures i <= k <= |hs|
    decreases |hs| - i
  {
    if i == |hs| || used + Cost(tok, hs[i]) > maxTokens then i
    else FitCount(tok, hs, i + 1, maxTokens, used + Cost(tok, hs[i]))
  }

  /** The hits added whole form the longest run whose running token total stays within
      the budget at every step: every total up to it fits, and adding the next hit
      would exceed the budget. */
  lemma {:induction false} FitCountSpec(tok: Tokenizer, hs: seq<string>, i: nat, maxTokens: int)
    requires i <= |hs|
    ensures var k := FitCount(tok, hs, i, maxTokens, Tokens(tok, hs, i));
            (forall j :: i < j <= k ==> Tokens(tok, hs, j) <= maxTokens) &&
            (k < |hs| ==> Tokens(tok, hs, k + 1) > maxTokens)
    decreases |hs| - i
  {
    if i < |hs| && Tokens(tok, hs, i) + Cost(tok, hs[i]) <= maxTokens {
      assert Tokens(tok, hs, i + 1) == Tokens(tok, hs, i) + Cost(tok, hs[i]);
      FitCountSpec(tok, hs, i + 1, maxTokens);
    }
  }

  /** The cost of the hits grows with their number. */
  lemma {:induction false} TokensMonotone(tok: Tokenizer, hs: seq<string>, i: nat, j: nat)
    requires i <= j <= |hs|
    ensures Tokens(tok, hs, i) <= Tokens(tok, hs, j)
    decreases j - i
  {
    if i < j {
      TokensMonotone(tok, hs, i, j - 1);
    }
  }

  /** The shape of the context: the hits that fit, each after a space, in order,
      followed by the truncated fragment of the first hit that does not fit. */
  lemma FillShape(tok: Tokenizer, hs: seq<string>, i: nat, maxTokens: int)
    requires i <= |hs|
    ensures var k := FitCount(tok, hs, i, maxTokens, Tokens(tok, hs, i));
            Fill(tok, hs, i, maxTokens, Tokens(tok, hs, i)) ==
              Joined(hs, i, k) +
              (if k < |hs| then Fragment(tok, hs[k], maxTokens - Tokens(tok, hs, k)) else "")
  {
    var k := FitCount(tok, hs, i, maxTokens, Tokens(tok, hs, i));
    FillThenOverflow(tok, hs, i, maxTokens);
    JoinedThenAppend(hs, i, k, Overflow(tok, hs, k, maxTokens));
  }

  /** What follows the hits added whole: the fragment of hit `k`, or nothing after the
      last hit. */
  function Overflow(tok: Tokenizer, hs: seq<string>, k: nat, maxTokens: int): string
    requires k <= |hs|
  {
    if k < |hs| then Fragment(tok, hs[k], maxTokens - Tokens(tok, hs, k)) else ""
  }

  /** The hits from index `i` up to `j`, each after a space, in front of `tail`. */
  function JoinedThen(hs: seq<string>, i: nat, j: nat, tail: string): string
    requires i <= j <= |hs|
    decreases j - i
  {
    if i == j then tail else " " + hs[i] + JoinedThen(hs, i + 1, j, tail)
  }

  lemma {:induction false} FillThenOverflow(tok: Tokenizer, hs: seq<string>, i: nat, maxTokens: int)
    requires i <= |hs|
    ensures var k := FitCount(tok, hs, i, maxTokens, Tokens(tok, hs, i));
            Fill(tok, hs, i, maxTokens, Tokens(tok, hs, i)) == JoinedThen(hs, i, k, Overflow(tok, hs, k, maxTokens))
    decreases |hs| - i
  {
    var used := Tokens(tok, hs, i);
    if i < |hs| && used + Cost(tok, hs[i]) <= maxTokens {
      assert Tokens(tok, hs, i + 1) == used + Cost(tok, hs[i]);
      FillThenOverflow(tok, hs, i + 1, maxTokens);
    }
  }

  lemma {:induction false} JoinedThenAppend(hs: seq<string>, i: nat, j: nat, tail: string)
    requires i <= j <= |hs|
    ensures JoinedThen(hs, i, j, tail) == Joined(hs, i, j) + tail
    decreases j - i
  {
    if i == j {
      assert "" + tail == tail;
    } else {
      JoinedThenAppend(hs, i + 1, j, tail);
      ConcatAssoc(" " + hs[i], Joined(hs, i + 1, j), tail);
    }
  }

  lemma ConcatAssoc(a: string, b: string, c: string)
    ensures a + (b + c) == (a + b) + c
  {
  }

  /** When all hits fit the budget, the context is all hit texts, each after a space. */
  lemma AllHitsFit(tok: Tokenizer, hits: seq<string>, maxTokens: int)
    requires hits != [] && Tokens(tok, hits, |hits|) <= maxTokens
    ensures Assemble(tok, hits, maxTokens) == Some(Joined(hits, 0, |hits|))
  {
    var k := FitCount(tok, hits, 0, maxTokens, 0);
    FillShape(tok, hits, 0, maxTokens);
    FitCountSpec(tok, hits, 0, maxTokens);
    if k < |hits| {
      TokensMonotone(tok, hits, k + 1, |hits|);
    }
    assert Joined(hits, 0, |hits|) + "" == Joined(hits, 0, |hits|);
  }

  /** Nothing after the first hit that does not fit has any effect on the context. */
  lemma {:induction false} HitsAfterOverflowIgnored(tok: Tokenizer, hs: seq<string>, tail: seq<string>,
                                                    i: nat, maxTokens: int, used: int)
    requires i <= |hs| && FitCount(tok, hs, i, maxTokens, used) < |hs|
    ensures Fill(tok, hs + tail, i, maxTokens, used) == Fill(tok, hs, i, maxTokens, used)
    decreases |hs| - i
  {
    assert (hs + tail)[i] == hs[i];
    if used + Cost(tok, hs[i]) <= maxTokens {
      HitsAfterOverflowIgnored(tok, hs, tail, i + 1, maxTokens, used + Cost(tok, hs[i]));
    }
  }

  /** The tokens of the hits added whole stay within a non-negative budget. */
  lemma BudgetRespected(tok: Tokenizer, hits: seq<string>, maxTokens: int)
    requires maxTokens >= 0
    ensures Tokens(tok, hits, FitCount(tok, hits, 0, maxTokens, 0)) <= maxTokens
  {
    FitCountSpec(tok, hits, 0, maxTokens);
  }

  /** When not even the first hit fits and no part of it can be added, the context is
      the empty string, not None. */
  lemma NothingFits(tok: Tokenizer, hits: seq<string>, maxTokens: int)
    requires hits != [] && Cost(tok, hits[0]) > maxTokens
    requires maxTokens <= 0 || |tok.encode(hits[0])| == 0
    ensures Assemble(tok, hits, maxTokens) == Some("")
  {
  }

  /** Without hits there is no context, and with hits there always is one. */
  lemma NoContextIffNoHits(tok: Tokenizer, hits: seq<string>, maxTokens: int)
    ensures Assemble(tok, hits, maxTokens).None? <==> hits == []
  {
  }

  /** A single hit too large for the budget is cut to its first `maxTokens` tokens. */
  lemma SingleOversizedHit(tok: Tokenizer, hit: string, maxTokens: int)
    requires maxTokens > 0 && Cost(tok, hit) > maxTokens && |tok.encode(hit)| > 0
    ensures Assemble(tok, [hit], maxTokens) ==
              Some(" " + tok.decode(tok.encode(hit)[..Min(maxTokens, |tok.encode(hit)|)]))
  {
  }
}
