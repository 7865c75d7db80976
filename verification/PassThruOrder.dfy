/**
 When the order of the options does not matter, and that packing twice changes nothing.
 */
module PassThruOrder {
  import opened Wrappers
  import opened Bits
  import opened Bytes
  import opened CmdSend
  import opened PassThru
  import opened PassThruRuns
  import opened PassThruTheorems
  import Fields

  /** No option selects a protocol or a byte order. */
  predicate NoModes(args: seq<Arg>) {
    forall j :: 0 <= j < |args| ==> !args[j].id.Endian? && !args[j].id.ProtocolName?
  }

  function HeaderArgs(args: seq<Arg>): seq<Arg> {
    if args == [] then []
    else
      var last := args[|args| - 1];
      HeaderArgs(args[..|args| - 1]) + if FieldOf(last.id).Some? then [last] else []
  }

  function PayloadArgs(args: seq<Arg>): seq<Arg> {
    if args == [] then []
    else
      var last := args[|args| - 1];
      PayloadArgs(args[..|args| - 1]) + if FormatOf(last.id).Some? then [last] else []
  }

  /** The options write pairwise disjoint fields. */
  predicate DisjointFields(hs: seq<Arg>) {
    forall i, j :: 0 <= i < j < |hs| ==> !Overlap(hs[i].id, hs[j].id)
  }

  // ---- a run without mode options, header and payload apart ----

  predicate Fine(layout: Layout, h: Arg) {
    FieldOf(h.id).Some? ==>
      Included(layout, FieldOf(h.id).value.group) && FieldBits(h.text, FieldOf(h.id).value.mask).Some?
  }

  predicate AllFine(layout: Layout, hs: seq<Arg>) {
    forall j :: 0 <= j < |hs| ==> Fine(layout, hs[j])
  }

  function WordsAfter(ws: seq<word>, hs: seq<Arg>): (r: seq<word>)
    requires |ws| == 6
    ensures |r| == 6
  {
    if hs == [] then ws
    else
      var before, last := WordsAfter(ws, hs[..|hs| - 1]), hs[|hs| - 1];
      match FieldOf(last.id)
      case None => before
      case Some(f) => before[f.index := MergeWord(before[f.index], f.mask, StoredBits(last))]
  }

  function OverridesAfter(o: Overrides, hs: seq<Arg>): Overrides {
    if hs == [] then o else Overriding(OverridesAfter(o, hs[..|hs| - 1]), hs[|hs| - 1].id)
  }

  function PayloadRun(fp: FloatReader, bigEndian: bool, start: Buffer, ps: seq<Arg>): (r: Option<Buffer>)
    requires |start| <= MAX_PACKET
    ensures r.Some? ==> |r.value| <= MAX_PACKET
  {
    if ps == [] then Some(start)
    else
      var before, last := PayloadRun(fp, bigEndian, start, ps[..|ps| - 1]), ps[|ps| - 1];
      if before == None || FormatOf(last.id) == None
         || Encoding(fp, bigEndian, FormatOf(last.id).value, last.text) == None
         || |before.value| + |Encoded(fp, bigEndian, last)| > MAX_PACKET then None
      else Some(before.value + Encoded(fp, bigEndian, last))
  }

  /** The header part and the payload part of a run do not see each other. */
  lemma {:induction false} RunInParts(fp: FloatReader, st: State, args: seq<Arg>)
    requires NoModes(args)
    ensures var r := Run(fp, st, args);
            var hs, p := HeaderArgs(args), PayloadRun(fp, st.bigEndian, st.payload, PayloadArgs(args));
            && (r.accepted <==> AllFine(st.layout, hs) && p.Some?)
            && (r.accepted ==>
                  r.state == st.(words := WordsAfter(st.words, hs), overrides := OverridesAfter(st.overrides, hs),
                                 payload := p.value))
  {
    if args != [] {
      var prior, last := args[..|args| - 1], args[|args| - 1];
      RunInParts(fp, st, prior);
      if FieldOf(last.id).Some? {
        FieldIsOther(last.id);
        assert HeaderArgs(args) == HeaderArgs(prior) + [last];
        assert PayloadArgs(args) == PayloadArgs(prior);
        HeaderPart(fp, st, prior, last);
      } else if FormatOf(last.id).Some? {
        FormatIsOther(last.id);
        assert HeaderArgs(args) == HeaderArgs(prior);
        assert PayloadArgs(args) == PayloadArgs(prior) + [last];
        PayloadPart(fp, st, prior, last);
      } else {
        assert HeaderArgs(args) == HeaderArgs(prior);
        assert PayloadArgs(args) == PayloadArgs(prior);
      }
    }
  }

  lemma HeaderPart(fp: FloatReader, st: State, prior: seq<Arg>, last: Arg)
    requires FieldOf(last.id).Some? && FormatOf(last.id) == None
    ensures var hs, hs' := HeaderArgs(prior), HeaderArgs(prior) + [last];
            && WordsAfter(st.words, hs') ==
                 (var f := FieldOf(last.id).value;
                  var ws := WordsAfter(st.words, hs);
                  ws[f.index := MergeWord(ws[f.index], f.mask, StoredBits(last))])
            && OverridesAfter(st.overrides, hs') == Overriding(OverridesAfter(st.overrides, hs), last.id)
            && (AllFine(st.layout, hs') <==> AllFine(st.layout, hs) && Fine(st.layout, last))
  {
    var hs, hs' := HeaderArgs(prior), HeaderArgs(prior) + [last];
    assert hs'[..|hs'| - 1] == hs && hs'[|hs'| - 1] == last;
    assert forall j :: 0 <= j < |hs| ==> hs'[j] == hs[j];
  }

  lemma PayloadPart(fp: FloatReader, st: State, prior: seq<Arg>, last: Arg)
    requires FormatOf(last.id).Some?
    ensures var ps := PayloadArgs(prior);
            var before := PayloadRun(fp, st.bigEndian, st.payload, ps);
            var after := PayloadRun(fp, st.bigEndian, st.payload, ps + [last]);
            && (before == None ==> after == None)
            && (before.Some? ==>
                  forall s: State | s.payload == before.value && s.bigEndian == st.bigEndian ::
                    var t := PayloadStep(fp, s, FormatOf(last.id).value, last.text);
                    && (Continues(t.rc) <==> after.Some?)
                    && (after.Some? ==> t.state == s.(payload := after.value)))
  {
    var ps := PayloadArgs(prior);
    assert (ps + [last])[..|ps|] == ps;
    var before := PayloadRun(fp, st.bigEndian, st.payload, ps);
    var e := Encoding(fp, st.bigEndian, FormatOf(last.id).value, last.text);
    if before.Some? && e.Some? {
      forall s: State | s.payload == before.value && s.bigEndian == st.bigEndian {
        AppendLaw(s, e.value);
      }
    }
  }

  // ---- order independence ----

  /** A bit that only option m covers from m on is that option's. */
  lemma {:induction false} CoveredBit(ws: seq<word>, hs: seq<Arg>, k: nat, i: nat, m: nat)
    requires |ws| == 6 && k < 6 && m < |hs| && Covers(hs[m].id, k, i)
    requires forall n :: m < n < |hs| ==> !Covers(hs[n].id, k, i)
    ensures Bit(WordsAfter(ws, hs)[k], i) <==> Bit(StoredBits(hs[m]), i)
    decreases |hs|
  {
    WordsStepBit(ws, hs, k, i);
    if m < |hs| - 1 {
      CoveredBit(ws, hs[..|hs| - 1], k, i, m);
    }
  }

  lemma {:induction false} UncoveredBit(ws: seq<word>, hs: seq<Arg>, k: nat, i: nat)
    requires |ws| == 6 && k < 6
    requires forall n :: 0 <= n < |hs| ==> !Covers(hs[n].id, k, i)
    ensures Bit(WordsAfter(ws, hs)[k], i) <==> Bit(ws[k], i)
  {
    if hs != [] {
      WordsStepBit(ws, hs, k, i);
      UncoveredBit(ws, hs[..|hs| - 1], k, i);
    }
  }

  /** Under disjoint fields a bit comes from the one option that covers it, wherever that stands. */
  lemma DisjointBit(ws: seq<word>, hs: seq<Arg>, k: nat, i: nat, m: nat)
    requires |ws| == 6 && k < 6 && DisjointFields(hs) && m < |hs| && Covers(hs[m].id, k, i)
    ensures Bit(WordsAfter(ws, hs)[k], i) <==> Bit(StoredBits(hs[m]), i)
  {
    forall n | m < n < |hs| ensures !Covers(hs[n].id, k, i) {
      assert !Overlap(hs[m].id, hs[n].id);
      if Covers(hs[n].id, k, i) { DisjointCover(hs[m].id, hs[n].id, i); }
    }
    CoveredBit(ws, hs, k, i, m);
  }

  lemma WordsStepBit(ws: seq<word>, hs: seq<Arg>, k: nat, i: nat)
    requires |ws| == 6 && k < 6 && hs != []
    ensures var last := hs[|hs| - 1];
            Bit(WordsAfter(ws, hs)[k], i) <==>
            if Covers(last.id, k, i) then Bit(StoredBits(last), i) else Bit(WordsAfter(ws, hs[..|hs| - 1])[k], i)
  {
    var last := hs[|hs| - 1];
    if Targets(last, k) {
      BitMerge(WordsAfter(ws, hs[..|hs| - 1])[k], FieldOf(last.id).value.mask, StoredBits(last), i);
    }
  }

  lemma WordsPermuted(ws: seq<word>, hs: seq<Arg>, gs: seq<Arg>)
    requires |ws| == 6 && DisjointFields(hs) && DisjointFields(gs) && multiset(hs) == multiset(gs)
    ensures WordsAfter(ws, hs) == WordsAfter(ws, gs)
  {
    forall k | 0 <= k < 6 ensures WordsAfter(ws, hs)[k] == WordsAfter(ws, gs)[k] {
      forall i: nat ensures Bit(WordsAfter(ws, hs)[k], i) == Bit(WordsAfter(ws, gs)[k], i) {
        BitPermuted(ws, hs, gs, k, i);
      }
      SameBits(WordsAfter(ws, hs)[k], WordsAfter(ws, gs)[k]);
    }
  }

  lemma BitPermuted(ws: seq<word>, hs: seq<Arg>, gs: seq<Arg>, k: nat, i: nat)
    requires |ws| == 6 && k < 6 && DisjointFields(hs) && DisjointFields(gs) && multiset(hs) == multiset(gs)
    ensures Bit(WordsAfter(ws, hs)[k], i) == Bit(WordsAfter(ws, gs)[k], i)
  {
    if m: nat :| m < |hs| && Covers(hs[m].id, k, i) {
      var n := Position(gs, hs, hs[m]);
      DisjointBit(ws, hs, k, i, m);
      DisjointBit(ws, gs, k, i, n);
    } else {
      forall n | 0 <= n < |gs| ensures !Covers(gs[n].id, k, i) {
        var m := Position(hs, gs, gs[n]);
      }
      UncoveredBit(ws, hs, k, i);
      UncoveredBit(ws, gs, k, i);
    }
  }

  lemma Position(s: seq<Arg>, t: seq<Arg>, x: Arg) returns (m: nat)
    requires multiset(s) == multiset(t) && x in t
    ensures m < |s| && s[m] == x
  {
    assert x in multiset(t);
    assert x in s;
    m :| m < |s| && s[m] == x;
  }

  lemma {:induction false} OverridesAre(o: Overrides, hs: seq<Arg>)
    ensures OverridesAfter(o, hs) == WithGiven(o, hs)
  {
    if hs != [] {
      OverridesAre(o, hs[..|hs| - 1]);
      OverridesStep(o, hs);
    }
  }

  lemma OverridesPermuted(o: Overrides, hs: seq<Arg>, gs: seq<Arg>)
    requires multiset(hs) == multiset(gs)
    ensures OverridesAfter(o, hs) == OverridesAfter(o, gs)
  {
    OverridesAre(o, hs);
    OverridesAre(o, gs);
    forall id ensures Given(hs, id) <==> Given(gs, id) {
      if j :| 0 <= j < |hs| && hs[j].id == id { var m := Position(gs, hs, hs[j]); }
      if j :| 0 <= j < |gs| && gs[j].id == id { var m := Position(hs, gs, gs[j]); }
    }
  }

  /** A permutation of options with disjoint fields still has disjoint fields. */
  lemma ApartPermuted(hs: seq<Arg>, gs: seq<Arg>)
    requires DisjointFields(hs) && multiset(hs) == multiset(gs)
    requires forall j :: 0 <= j < |hs| ==> FieldOf(hs[j].id).Some?
    ensures DisjointFields(gs)
  {
    forall i, j | 0 <= i < j < |gs| ensures !Overlap(gs[i].id, gs[j].id) {
      if gs[i] == gs[j] {
        CountTwice(gs, i, j);
        var p, q := TwoPositions(hs, gs[i]);
        Fields.AndSelf(FieldOf(hs[p].id).value.mask);
        assert false;
      } else {
        var p := Position(hs, gs, gs[i]);
        var q := Position(hs, gs, gs[j]);
        if p < q {
          assert !Overlap(hs[p].id, hs[q].id);
        } else {
          assert !Overlap(hs[q].id, hs[p].id);
          OverlapSymmetric(hs[q].id, hs[p].id);
        }
      }
    }
  }

  lemma OverlapSymmetric(a: OptionId, b: OptionId)
    ensures Overlap(a, b) <==> Overlap(b, a)
  {
    if FieldOf(a).Some? && FieldOf(b).Some? {
      AndCommutes(FieldOf(a).value.mask, FieldOf(b).value.mask);
    }
  }

  lemma {:induction false} AndCommutes(a: nat, b: nat)
    ensures And(a, b) == And(b, a)
  {
    if a > 0 && b > 0 { AndCommutes(a / 2, b / 2); }
  }

  lemma CountTwice(s: seq<Arg>, i: nat, j: nat)
    requires i < j < |s| && s[i] == s[j]
    ensures multiset(s)[s[i]] >= 2
  {
    assert s == s[..j] + s[j..];
    assert s[..j][i] == s[i] && s[j..][0] == s[i];
    assert s[i] in multiset(s[..j]) && s[i] in multiset(s[j..]);
  }

  lemma {:induction false} TwoPositions(s: seq<Arg>, x: Arg) returns (i: nat, j: nat)
    requires multiset(s)[x] >= 2
    ensures i < j < |s| && s[i] == x && s[j] == x
  {
    var n := |s| - 1;
    assert s == s[..n] + [s[n]];
    if s[n] == x {
      assert x in multiset(s[..n]);
      assert x in s[..n];
      i :| i < n && s[..n][i] == x;
      j := n;
    } else {
      i, j := TwoPositions(s[..n], x);
    }
  }

  /**
   Order independence: with the protocol and the byte order fixed, any permutation of header
   options with pairwise disjoint fields, interleaved in any way with the same payload options in
   the same order, is accepted alike and gives the same state and so the same packet.
   */
  lemma OrderIndependence(fp: FloatReader, st: State, a: seq<Arg>, b: seq<Arg>)
    requires NoModes(a) && NoModes(b)
    requires DisjointFields(HeaderArgs(a)) && multiset(HeaderArgs(a)) == multiset(HeaderArgs(b))
    requires PayloadArgs(a) == PayloadArgs(b)
    ensures Run(fp, st, a).accepted <==> Run(fp, st, b).accepted
    ensures Run(fp, st, a).accepted ==>
              && Run(fp, st, a).state == Run(fp, st, b).state
              && Packet(Run(fp, st, a).state) == Packet(Run(fp, st, b).state)
  {
    var hs, gs := HeaderArgs(a), HeaderArgs(b);
    RunInParts(fp, st, a);
    RunInParts(fp, st, b);
    AllHeaders(a);
    ApartPermuted(hs, gs);
    WordsPermuted(st.words, hs, gs);
    OverridesPermuted(st.overrides, hs, gs);
    FinePermuted(st.layout, hs, gs);
  }

  lemma FinePermuted(layout: Layout, hs: seq<Arg>, gs: seq<Arg>)
    requires multiset(hs) == multiset(gs)
    ensures AllFine(layout, hs) <==> AllFine(layout, gs)
  {
    if AllFine(layout, hs) {
      forall j | 0 <= j < |gs| ensures Fine(layout, gs[j]) {
        var m := Position(hs, gs, gs[j]);
      }
    }
    if AllFine(layout, gs) {
      forall j | 0 <= j < |hs| ensures Fine(layout, hs[j]) {
        var m := Position(gs, hs, hs[j]);
      }
    }
  }

  lemma {:induction false} AllHeaders(args: seq<Arg>)
    ensures forall j :: 0 <= j < |HeaderArgs(args)| ==> FieldOf(HeaderArgs(args)[j].id).Some?
  {
    if args != [] { AllHeaders(args[..|args| - 1]); }
  }

  // ---- packing twice ----

  /** The finished state is its own finish and stands for the same packet. */
  lemma PackingTwice(st: State)
    ensures Finish(Finish(st)) == Finish(st)
    ensures Packet(Finish(st)) == Packet(st) && Total(Finish(st)) == Total(st)
  {
    var done := Finish(st);
    forall k: nat | k < 6 ensures FinalWord(done, k) == FinalWord(st, k) {
      FinishWords(st, k);
      OrIdempotent(st.words[k], DefaultBits(st, k));
    }
  }
}
