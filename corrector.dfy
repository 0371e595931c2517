/**
 * ai_corrector.py: OCR text chunks are sent to a correction service. A text
 * longer than the limit is sent in fixed-size slices, and a chunk or slice
 * whose correction fails keeps its original text. The two services are
 * oracles: for a request each gives back the response text, or fails.
 */
module Corrector {
  import opened Strings
  import opened Wrappers

  /** The services: OpenAI takes the text, Ollama a model name and a prompt; None is a failed call. */
  datatype Services = Services(openai: string -> Option<string>, ollama: (string, string) -> Option<string>)

  /** The prompt `correct_with_ollama` sends. */
  function OllamaPrompt(text: string): string {
    "You're an expert copyeditor. Fix OCR mistakes in the following text:\n\n" + text
  }

  /**
   * `correct_text_chunk(text, engine, model)`. The two known engines return
   * the stripped response or raise RuntimeError; any other engine raises ValueError.
   */
  function CorrectTextChunk(text: string, engine: string, model: string, svc: Services): Result<string> {
    if engine == "openai" then
      match svc.openai(text)
      case None => Raised("RuntimeError")
      case Some(t) => Ok(Strip(t))
    else if engine == "ollama" then
      match svc.ollama(model, OllamaPrompt(text))
      case None => Raised("RuntimeError")
      case Some(t) => Ok(Strip(t))
    else Raised("ValueError")
  }

  /** Both known engines give the stripped response or RuntimeError, in both directions; any other engine raises ValueError. */
  lemma CorrectTextChunkSpec(text: string, engine: string, model: string, svc: Services)
    ensures var r := CorrectTextChunk(text, engine, model, svc);
      && (r.Raised? && (engine == "openai" || engine == "ollama") ==> r.error == "RuntimeError")
      && (r.Raised? && engine != "openai" && engine != "ollama" ==> r.error == "ValueError")
      && (r.Ok? <==> (engine == "openai" && svc.openai(text).Some?) || (engine == "ollama" && svc.ollama(model, OllamaPrompt(text)).Some?))
      && (r.Ok? ==> r.value == Strip(if engine == "openai" then svc.openai(text).value else svc.ollama(model, OllamaPrompt(text)).value))
  {
  }

  /** `correct_chunks` calls `correct_text_chunk` without a model, so the default applies. */
  const DefaultModel := "llama3"

  /** The text itself when correction raised, the correction otherwise. */
  function OrOriginal(r: Result<string>, original: string): string {
    if r.Ok? then r.value else original
  }

  function Corrected(text: string, engine: string, svc: Services): string {
    OrOriginal(CorrectTextChunk(text, engine, DefaultModel, svc), text)
  }

  /** The per-text correction `correct_chunks` applies, as a function value. */
  function Correction(engine: string, svc: Services): string -> string {
    (text: string) => Corrected(text, engine, svc)
  }

  // ---------------------------------------------------------------------------
  // Slicing

  /** `[text[j:j + n] for j in range(0, len(text), n)]` for a positive `n`. */
  function Slices(text: string, n: nat): seq<string>
    requires n > 0
    decreases |text|
  {
    if |text| == 0 then []
    else if |text| <= n then [text]
    else [text[..n]] + Slices(text[n..], n)
  }

  /** The comprehension for any `max_length`: a zero step raises ValueError, a negative one gives no slice. */
  function Split(text: string, maxLength: int): Result<seq<string>> {
    if maxLength == 0 then Raised("ValueError")
    else if maxLength < 0 then Ok([])
    else Ok(Slices(text, maxLength))
  }

  function Concat(parts: seq<string>): string {
    if parts == [] then "" else parts[0] + Concat(parts[1..])
  }

  /** ceil(a / n), counted by subtraction. */
  function CeilDiv(a: nat, n: nat): nat
    requires n > 0
    decreases a
  {
    if a == 0 then 0 else if a <= n then 1 else 1 + CeilDiv(a - n, n)
  }

  /** CeilDiv(a, n) is the least k with a <= k * n. */
  lemma {:induction false} CeilDivSpec(a: nat, n: nat)
    requires n > 0
    ensures a <= CeilDiv(a, n) * n
    ensures a > 0 ==> (CeilDiv(a, n) - 1) * n < a
    decreases a
  {
    if a > n {
      var k := CeilDiv(a - n, n);
      CeilDivSpec(a - n, n);
      assert (1 + k) * n == n + k * n;
      assert k * n == n + (k - 1) * n;
    }
  }

  /**
   * The slices put back together are the text. There are ceil(len / n) of
   * them, each non-empty, all of length `n` except the last, which is at most `n`.
   */
  lemma {:induction false} SlicesSpec(text: string, n: nat)
    requires n > 0
    ensures Concat(Slices(text, n)) == text
    ensures |Slices(text, n)| == CeilDiv(|text|, n)
    ensures forall i :: 0 <= i < |Slices(text, n)| ==> 0 < |Slices(text, n)[i]| <= n
    ensures forall i :: 0 <= i < |Slices(text, n)| - 1 ==> |Slices(text, n)[i]| == n
    decreases |text|
  {
    var s := Slices(text, n);
    if |text| > n {
      var rest := Slices(text[n..], n);
      SlicesSpec(text[n..], n);
      assert s[1..] == rest;
      assert text[..n] + text[n..] == text;
      forall i | 0 < i < |s| ensures s[i] == rest[i - 1] {
      }
    }
  }

  // ---------------------------------------------------------------------------
  // correct_chunks

  /** A `(cid, text)` pair. */
  datatype Chunk = Chunk(id: string, text: string)

  /** The correction of each slice, or the slice itself where it failed. */
  function CorrectedParts(parts: seq<string>, fix: string -> string): seq<string> {
    if parts == [] then [] else [fix(parts[0])] + CorrectedParts(parts[1..], fix)
  }

  /**
   * One chunk and the number of slices it was sent in. A long text is
   * split, its slices corrected one by one and joined with newlines. A short
   * one is sent whole. Only the split itself can raise.
   */
  function CorrectOne(c: Chunk, maxLength: int, fix: string -> string): Result<(Chunk, nat)> {
    if |c.text| > maxLength then
      match Split(c.text, maxLength)
      case Raised(e) => Raised(e)
      case Ok(parts) => Ok((Chunk(c.id, Join("\n", CorrectedParts(parts, fix))), |parts|))
    else Ok((Chunk(c.id, fix(c.text)), 0))
  }

  /** The loop over the chunks after `done` results and `total` slices so far. */
  function CorrectFrom(chunks: seq<Chunk>, maxLength: int, fix: string -> string, done: seq<Chunk>, total: nat): Result<(seq<Chunk>, nat)>
    decreases chunks
  {
    if chunks == [] then Ok((done, total))
    else
      match CorrectOne(chunks[0], maxLength, fix)
      case Raised(e) => Raised(e)
      case Ok(one) => CorrectFrom(chunks[1..], maxLength, fix, done + [one.0], total + one.1)
  }

  /** One step of `CorrectedParts` from position `k`. */
  lemma CorrectedPartsAt(parts: seq<string>, k: nat, fix: string -> string)
    requires k < |parts|
    ensures CorrectedParts(parts[k..], fix) == [fix(parts[k])] + CorrectedParts(parts[k + 1..], fix)
  {
    assert parts[k..][0] == parts[k] && parts[k..][1..] == parts[k + 1..];
  }

  /** The inner loop over the slices of one long text. */
  method CorrectSlices(parts: seq<string>, engine: string, svc: Services) returns (fixed: seq<string>)
    ensures fixed == CorrectedParts(parts, Correction(engine, svc))
  {
    fixed := [];
    var k := 0;
    while k < |parts|
      invariant 0 <= k <= |parts|
      invariant fixed + CorrectedParts(parts[k..], Correction(engine, svc)) == CorrectedParts(parts, Correction(engine, svc))
    {
      var t := CorrectOrKeep(parts[k], engine, svc);
      CorrectedPartsAt(parts, k, Correction(engine, svc));
      ghost var rest := CorrectedParts(parts[k + 1..], Correction(engine, svc));
      assert fixed + ([t] + rest) == (fixed + [t]) + rest;
      fixed := fixed + [t];
      k := k + 1;
    }
    assert parts[k..] == [];
  }

  /** The body of the loop for one chunk: its corrected text and its slice count. */
  method CorrectChunk(c: Chunk, maxLength: int, engine: string, svc: Services) returns (r: Result<(Chunk, nat)>)
    ensures r == CorrectOne(c, maxLength, Correction(engine, svc))
  {
    if |c.text| > maxLength {
      if maxLength == 0 {
        return Raised("ValueError");
      }
      var parts := if maxLength < 0 then [] else Slices(c.text, maxLength);
      var fixed := CorrectSlices(parts, engine, svc);
      return Ok((Chunk(c.id, Join("\n", fixed)), |parts|));
    }
    var text := CorrectOrKeep(c.text, engine, svc);
    return Ok((Chunk(c.id, text), 0));
  }

  /** The `try`/`except` around one call: the correction, or the text itself when the call raises. */
  method CorrectOrKeep(text: string, engine: string, svc: Services) returns (t: string)
    ensures t == Corrected(text, engine, svc)
  {
    var r := CorrectTextChunk(text, engine, DefaultModel, svc);
    t := if r.Ok? then r.value else text;
  }

  /**
   * `correct_chunks(chunks, max_length, engine)`: the corrected chunks and
   * `total_subchunks`, or the ValueError a zero `max_length` raises.
   */
  method CorrectChunks(chunks: seq<Chunk>, maxLength: int, engine: string, svc: Services)
    returns (r: Result<(seq<Chunk>, nat)>)
    ensures r == CorrectFrom(chunks, maxLength, Correction(engine, svc), [], 0)
  {
    var corrected: seq<Chunk> := [];
    var total: nat := 0;
    var i := 0;
    while i < |chunks|
      invariant 0 <= i <= |chunks|
      invariant CorrectFrom(chunks, maxLength, Correction(engine, svc), [], 0) == CorrectFrom(chunks[i..], maxLength, Correction(engine, svc), corrected, total)
    {
      var one := CorrectChunk(chunks[i], maxLength, engine, svc);
      CorrectFromAt(chunks, i, maxLength, Correction(engine, svc), corrected, total);
      if one.Raised? {
        return Raised(one.error);
      }
      corrected := corrected + [one.value.0];
      total := total + one.value.1;
      i := i + 1;
    }
    assert chunks[i..] == [];
    assert CorrectFrom(chunks[i..], maxLength, Correction(engine, svc), corrected, total) == Ok((corrected, total));
    return Ok((corrected, total));
  }

  /** One turn of the chunk loop, from position `i`. */
  lemma CorrectFromAt(chunks: seq<Chunk>, i: nat, maxLength: int, fix: string -> string, done: seq<Chunk>, total: nat)
    requires i < |chunks|
    ensures CorrectFrom(chunks[i..], maxLength, fix, done, total) ==
      match CorrectOne(chunks[i], maxLength, fix)
      case Raised(e) => Raised(e)
      case Ok(one) => CorrectFrom(chunks[i + 1..], maxLength, fix, done + [one.0], total + one.1)
  {
    assert chunks[i..][0] == chunks[i] && chunks[i..][1..] == chunks[i + 1..];
  }

  // ---------------------------------------------------------------------------
  // Properties of correct_chunks

  /** The slices one chunk adds to `total_subchunks`. */
  function ChunkSlices(c: Chunk, maxLength: int): nat {
    if maxLength > 0 && |c.text| > maxLength then CeilDiv(|c.text|, maxLength) else 0
  }

  /** The number of slices `total_subchunks` counts: ceil(len / max_length) for each long text. */
  function SliceCount(chunks: seq<Chunk>, maxLength: int): nat {
    if chunks == [] then 0
    else ChunkSlices(chunks[0], maxLength) + SliceCount(chunks[1..], maxLength)
  }

  /** A chunk that makes the split raise: a non-empty text under a zero limit. */
  predicate Raises(c: Chunk, maxLength: int) {
    maxLength == 0 && |c.text| > 0
  }

  /** One chunk raises exactly when it `Raises`; otherwise it keeps its id and adds its ceil count. */
  lemma CorrectOneSpec(c: Chunk, maxLength: int, fix: string -> string)
    ensures CorrectOne(c, maxLength, fix).Raised? <==> Raises(c, maxLength)
    ensures CorrectOne(c, maxLength, fix).Ok? ==>
      CorrectOne(c, maxLength, fix).value.0.id == c.id && CorrectOne(c, maxLength, fix).value.1 == ChunkSlices(c, maxLength)
  {
    if maxLength > 0 && |c.text| > maxLength {
      SlicesSpec(c.text, maxLength);
    }
  }

  /**
   * `correct_chunks` raises exactly when `max_length` is zero and some text
   * is non-empty. Otherwise the output has one chunk per input chunk, with the
   * same ids in the same order, and the slice total is ceil(len / max_length)
   * summed over the long texts.
   */
  lemma CorrectFromSpec(chunks: seq<Chunk>, maxLength: int, fix: string -> string, done: seq<Chunk>, total: nat)
    ensures var r := CorrectFrom(chunks, maxLength, fix, done, total);
      && (r.Raised? <==> exists i :: 0 <= i < |chunks| && Raises(chunks[i], maxLength))
      && (r.Ok? ==>
            && |r.value.0| == |done| + |chunks|
            && r.value.0[..|done|] == done
            && (forall i :: 0 <= i < |chunks| ==> r.value.0[|done| + i].id == chunks[i].id)
            && r.value.1 == total + SliceCount(chunks, maxLength))
  {
    CorrectFromRaises(chunks, maxLength, fix, done, total);
    CorrectFromOk(chunks, maxLength, fix, done, total);
  }

  lemma {:induction false} CorrectFromRaises(chunks: seq<Chunk>, maxLength: int, fix: string -> string, done: seq<Chunk>, total: nat)
    ensures CorrectFrom(chunks, maxLength, fix, done, total).Raised? <==> exists i :: 0 <= i < |chunks| && Raises(chunks[i], maxLength)
    decreases chunks
  {
    if chunks != [] {
      var first := CorrectOne(chunks[0], maxLength, fix);
      CorrectOneSpec(chunks[0], maxLength, fix);
      if Raises(chunks[0], maxLength) {
        assert first.Raised?;
        assert CorrectFrom(chunks, maxLength, fix, done, total) == Raised(first.error);
      } else {
        assert first.Ok?;
        var one := first.value;
        CorrectFromRaises(chunks[1..], maxLength, fix, done + [one.0], total + one.1);
        assert CorrectFrom(chunks, maxLength, fix, done, total)
            == CorrectFrom(chunks[1..], maxLength, fix, done + [one.0], total + one.1);
        RaisesLater(chunks, maxLength);
      }
    }
  }

  /** Past a first chunk that does not raise, some chunk raises exactly when some later one does. */
  lemma RaisesLater(chunks: seq<Chunk>, maxLength: int)
    requires chunks != [] && !Raises(chunks[0], maxLength)
    ensures (exists i :: 0 <= i < |chunks| && Raises(chunks[i], maxLength))
        <==> (exists i :: 0 <= i < |chunks[1..]| && Raises(chunks[1..][i], maxLength))
  {
    if exists i :: 0 <= i < |chunks[1..]| && Raises(chunks[1..][i], maxLength) {
      var i :| 0 <= i < |chunks[1..]| && Raises(chunks[1..][i], maxLength);
      assert Raises(chunks[i + 1], maxLength);
    }
    if exists i :: 0 <= i < |chunks| && Raises(chunks[i], maxLength) {
      var i :| 0 <= i < |chunks| && Raises(chunks[i], maxLength);
      assert i > 0 && Raises(chunks[1..][i - 1], maxLength);
    }
  }

  lemma {:induction false} CorrectFromOk(chunks: seq<Chunk>, maxLength: int, fix: string -> string, done: seq<Chunk>, total: nat)
    ensures var r := CorrectFrom(chunks, maxLength, fix, done, total);
      r.Ok? ==>
        && |r.value.0| == |done| + |chunks|
        && r.value.0[..|done|] == done
        && (forall i :: 0 <= i < |chunks| ==> r.value.0[|done| + i].id == chunks[i].id)
        && r.value.1 == total + SliceCount(chunks, maxLength)
    decreases chunks
  {
    if chunks != [] {
      var c := chunks[0];
      CorrectOneSpec(c, maxLength, fix);
      if !Raises(c, maxLength) {
        var one := CorrectOne(c, maxLength, fix).value;
        var done' := done + [one.0];
        CorrectFromOk(chunks[1..], maxLength, fix, done', total + one.1);
        var r := CorrectFrom(chunks, maxLength, fix, done, total);
        assert r == CorrectFrom(chunks[1..], maxLength, fix, done', total + one.1);
        if r.Ok? {
          IdsShift(r.value.0, done, one.0, chunks);
        }
      }
    }
  }

  /** Moving one finished chunk from the input to `done` keeps the prefix and the ids in place. */
  lemma IdsShift(out: seq<Chunk>, done: seq<Chunk>, one: Chunk, chunks: seq<Chunk>)
    requires chunks != [] && one.id == chunks[0].id
    requires |out| == |done| + 1 + |chunks[1..]|
    requires out[..|done| + 1] == done + [one]
    requires forall i :: 0 <= i < |chunks[1..]| ==> out[|done + [one]| + i].id == chunks[1..][i].id
    ensures out[..|done|] == done
    ensures forall i :: 0 <= i < |chunks| ==> out[|done| + i].id == chunks[i].id
  {
    assert out[..|done|] == out[..|done| + 1][..|done|];
    forall i | 0 <= i < |chunks| ensures out[|done| + i].id == chunks[i].id {
      if i == 0 {
        assert out[|done|] == out[..|done| + 1][|done|] == one;
      } else {
        assert chunks[1..][i - 1] == chunks[i];
        assert |done + [one]| + (i - 1) == |done| + i;
      }
    }
  }

  /**
   * When every correction fails (an unknown engine, or services that always
   * fail), a short text comes back as it was and a long one as its slices
   * joined by newlines.
   */
  lemma FailedKeepsText(c: Chunk, maxLength: int, engine: string, svc: Services)
    requires forall s :: CorrectTextChunk(s, engine, DefaultModel, svc).Raised?
    requires !Raises(c, maxLength)
    ensures var r := CorrectOne(c, maxLength, Correction(engine, svc));
      && r.Ok?
      && (|c.text| <= maxLength ==> r.value.0 == c)
      && (0 < maxLength < |c.text| ==> r.value.0 == Chunk(c.id, Join("\n", Slices(c.text, maxLength))))
  {
    if 0 < maxLength < |c.text| {
      AllFailParts(Slices(c.text, maxLength), engine, svc);
    }
  }

  lemma {:induction false} AllFailParts(parts: seq<string>, engine: string, svc: Services)
    requires forall s :: CorrectTextChunk(s, engine, DefaultModel, svc).Raised?
    ensures CorrectedParts(parts, Correction(engine, svc)) == parts
  {
    if parts != [] {
      AllFailParts(parts[1..], engine, svc);
      assert [parts[0]] + parts[1..] == parts;
    }
  }

  /**
   * A negative `max_length` makes every text "too long" and gives it no
   * slice, so each chunk comes back with an empty text and adds nothing to the total.
   */
  lemma NegativeLimitEmpties(c: Chunk, maxLength: int, fix: string -> string)
    requires maxLength < 0
    ensures CorrectOne(c, maxLength, fix) == Ok((Chunk(c.id, ""), 0))
  {
  }

  /**
   * An engine other than `openai` or `ollama` raises ValueError on every
   * text; `correct_chunks` catches it, so every short chunk comes back unchanged.
   */
  lemma UnknownEngineFails(engine: string, svc: Services)
    requires engine != "openai" && engine != "ollama"
    ensures forall s :: CorrectTextChunk(s, engine, DefaultModel, svc) == Raised("ValueError")
    ensures forall c: Chunk, maxLength: int :: |c.text| <= maxLength ==> CorrectOne(c, maxLength, Correction(engine, svc)) == Ok((c, 0))
  {
  }

  /** A short text is sent whole: its result is the correction of the entire text, or the text. */
  lemma ShortSentWhole(c: Chunk, maxLength: int, engine: string, svc: Services)
    requires |c.text| <= maxLength
    ensures CorrectOne(c, maxLength, Correction(engine, svc)) == Ok((Chunk(c.id, OrOriginal(CorrectTextChunk(c.text, engine, DefaultModel, svc), c.text)), 0))
  {
  }
}
