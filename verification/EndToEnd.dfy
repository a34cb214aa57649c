/** From the masked request text to the text that the client reads on one channel of the streamed response. */
module EndToEnd {
  import opened Wrappers
  import opened Text
  import opened Mappings
  import opened Unmasking
  import opened PIIStream
  import opened PIIStreamExact
  import opened Masking
  import opened PlainGaps
  import opened PIIMasker
  import opened RoundTrips
  import opened ChatEvents
  import opened Unmasker
  import opened UnmaskerLaws
  import opened Relay
  import opened RelayLaws

  /** The upstream sends `masked` on the channel, split over its events in any way, and no more once its choice
      finished. */
  predicate Sends(lines: seq<Line>, ch: Channel, masked: string) {
    TextFor(lines, ch) == masked && QuietAfterFinish(LineInputs(lines, ch))
  }

  /** A model that repeats a masked text makes the client read the original text, exactly when the stream is clean for
      the channel. */
  lemma MaskedTextReachesClient(m: Mapping, text: string, spans: seq<PIIEntity>, masked: string, cfg: Config,
                                lines: seq<Line>, ch: Channel)
    requires cfg.mapping.Some? && cfg.mapping.value.WF() && Extends(m, cfg.mapping.value)
    requires MaskedAs(m, text, spans, masked) && GapsPlain(cfg.mapping.value, text, spans, 0)
    requires GapRunsOk(cfg.mapping.value, text, spans, 0) && Sends(lines, ch, masked)
    ensures TextFor(Transduced(cfg, lines), ch) == text <==> CleanLines(cfg.mapping.value, "", lines, ch)
    ensures ch.TextChannel? ==> CleanLines(cfg.mapping.value, "", lines, ch)
  {
    var m' := cfg.mapping.value;
    hide Mapping.WF, Extends, GapsPlain, GapRunsOk, CleanLines, Unmask, Faithful, Render, AllKnown, Transduced, TextFor;
    MaskedStays(m, m', text, spans, masked);
    PlainRoundTrip(m, m', text, spans, masked);
    FaithfulRender(m', text, spans, 0);
    ClientReadsRestoredText(cfg, lines, ch);
  }

  // ---------- Every split ----------

  /** An event that carries one chunk of a field. */
  function ChunkLine(k: Index, f: Field, chunk: string): Line {
    Data(Event("", None, [Choice(Some(k), Some(Delta(None, map[f := chunk], [])), None)], None, Absent, None))
  }

  function ChunkLines(k: Index, f: Field, chunks: seq<string>): seq<Line> {
    if chunks == [] then [] else [ChunkLine(k, f, chunks[0])] + ChunkLines(k, f, chunks[1..])
  }

  lemma ChunkLineInput(k: Index, f: Field, chunk: string)
    ensures LineInput(ChunkLine(k, f, chunk), TextChannel(k, f)) == [Input(chunk, false)]
  {
    var choices := ChunkLine(k, f, chunk).event.choices;
    assert choices[1..] == [] && choices[0].Key(0) == k;
    assert EventInputs(choices, 0, TextChannel(k, f)) == ChoiceInputs(choices[0], TextChannel(k, f)) + [];
  }

  lemma {:induction false} ChunkLinesSend(k: Index, f: Field, chunks: seq<string>)
    requires "" !in chunks
    ensures var inputs := LineInputs(ChunkLines(k, f, chunks), TextChannel(k, f));
      && (forall i | 0 <= i < |inputs| :: !inputs[i].finishes)
      && QuietAfterFinish(inputs) && Chunks(inputs) == chunks
  {
    if chunks != [] {
      var ch, lines := TextChannel(k, f), ChunkLines(k, f, chunks);
      assert chunks[0] in chunks && forall c | c in chunks[1..] :: c in chunks;
      ChunkLinesSend(k, f, chunks[1..]);
      ChunkLineInput(k, f, chunks[0]);
      assert lines[0] == ChunkLine(k, f, chunks[0]) && lines[1..] == ChunkLines(k, f, chunks[1..]);
      LineInputsCons(lines, ch);
      hide LineInput, LineInputs, ChunkLine, ChunkLines;
      ChunkInputs(chunks[0], LineInputs(lines[1..], ch), chunks[1..]);
      assert chunks == [chunks[0]] + chunks[1..];
    }
  }

  lemma LineInputsCons(lines: seq<Line>, ch: Channel)
    requires lines != []
    ensures LineInputs(lines, ch) == LineInput(lines[0], ch) + LineInputs(lines[1..], ch)
  {
  }

  lemma ChunkInputs(chunk: string, rest: seq<Input>, chunks: seq<string>)
    requires chunk != "" && Chunks(rest) == chunks && QuietAfterFinish(rest)
    requires forall i | 0 <= i < |rest| :: !rest[i].finishes
    ensures var inputs := [Input(chunk, false)] + rest;
      && (forall i | 0 <= i < |inputs| :: !inputs[i].finishes)
      && QuietAfterFinish(inputs) && Chunks(inputs) == [chunk] + chunks
  {
    assert ([Input(chunk, false)] + rest)[1..] == rest;
  }

  /** A text that misses the streaming condition is sent by some stream such that the client reads something else. */
  lemma SomeSplitDiverges(cfg: Config, masked: string, k: Index, f: Field) returns (lines: seq<Line>)
    requires cfg.mapping.Some? && cfg.mapping.value.WF() && !Faithful(cfg.mapping.value, masked)
    ensures Sends(lines, TextChannel(k, f), masked)
    ensures TextFor(Transduced(cfg, lines), TextChannel(k, f)) != Unmask(cfg.mapping.value, masked)
  {
    hide *;
    var m, ch := cfg.mapping.value, TextChannel(k, f);
    var chunks := StreamDiverges(m, masked);
    lines := ChunkLines(k, f, chunks);
    ChunkLinesSend(k, f, chunks);
    var inputs := LineInputs(lines, ch);
    ChunksAreAllText(inputs);
    LineInputsText(lines, ch);
    SendsIf(lines, ch, masked);
    QuietIsStream(m, "", inputs);
    ChannelsAreRelayed(cfg, lines, ch);
    NamedOnceLinesAreClean(m, "", lines, ch);
  }

  lemma SendsIf(lines: seq<Line>, ch: Channel, masked: string)
    requires TextFor(lines, ch) == masked && QuietAfterFinish(LineInputs(lines, ch))
    ensures Sends(lines, ch, masked)
  {
  }

  /** The client reads the original text for every split of a masked text over the events of a field, exactly when the
      word runs around the masked values can be cut where the stream may cut. */
  lemma EverySplitReachesClient(m: Mapping, text: string, spans: seq<PIIEntity>, masked: string, cfg: Config, k: Index,
                                f: Field)
    requires cfg.mapping.Some? && cfg.mapping.value.WF() && Extends(m, cfg.mapping.value)
    requires MaskedAs(m, text, spans, masked) && GapsPlain(cfg.mapping.value, text, spans, 0)
    ensures GapRunsOk(cfg.mapping.value, text, spans, 0) <==>
      forall lines | Sends(lines, TextChannel(k, f), masked) ::
        TextFor(Transduced(cfg, lines), TextChannel(k, f)) == text
  {
    var m', ch := cfg.mapping.value, TextChannel(k, f);
    hide Mapping.WF, Extends, GapsPlain, GapRunsOk, Unmask, Faithful, Render, AllKnown, Transduced, TextFor, Sends;
    if GapRunsOk(m', text, spans, 0) {
      forall lines | Sends(lines, ch, masked) ensures TextFor(Transduced(cfg, lines), ch) == text {
        MaskedTextReachesClient(m, text, spans, masked, cfg, lines, ch);
      }
    } else {
      MaskedStays(m, m', text, spans, masked);
      PlainRoundTrip(m, m', text, spans, masked);
      FaithfulRender(m', text, spans, 0);
      var lines := SomeSplitDiverges(cfg, masked, k, f);
    }
  }
}
