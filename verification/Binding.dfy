/**
 What a challenge binds.  A challenge is drawn from everything appended before it, so two
 challenges agree under every oracle exactly when they were drawn from the same transcript;
 read back from its end, that transcript gives the statement and the first move again.
 */
module Binding {
  import opened Group
  import opened Sigma
  import opened BitRange
  import opened Products
  import opened OneOfMany

  /** Challenges drawn from different transcripts are told apart by some oracle. */
  lemma ChallengeBinds(p: int, t: Transcript, tag: string, t': Transcript, tag': string)
    requires p > 1
    ensures (forall oracle: Oracle :: Challenge(p, oracle, t, tag) == Challenge(p, oracle, t', tag'))
            <==> t == t' && tag == tag'
  {
    var x, y := t + [Draw(tag)], t' + [Draw(tag')];
    if forall oracle: Oracle :: Challenge(p, oracle, t, tag) == Challenge(p, oracle, t', tag') {
      var spot: Oracle := s => if s == x then 1 else 0;
      assert Challenge(p, spot, t, tag) == Challenge(p, spot, t', tag');
      assert x == y;
      assert x[|t|] == Draw(tag) && y[|t'|] == Draw(tag');
      assert t == x[..|t|] && t' == y[..|t'|];
    }
  }

  /** Two transcripts with tails of one length split the same way. */
  lemma SameSplit(a: Transcript, b: Transcript, a': Transcript, b': Transcript)
    requires |b| == |b'|
    ensures a + b == a' + b' <==> a == a' && b == b'
  {
    if a + b == a' + b' {
      assert a == (a + b)[..|a|] && a' == (a' + b')[..|a'|];
      assert b == (a + b)[|a|..] && b' == (a' + b')[|a'|..];
    }
  }

  // ----- openings, bits and products -----

  lemma OpeningBinds(p: int, tr: Transcript, c: Point, t: Point, tr': Transcript, c': Point, t': Point)
    requires p > 1
    ensures (forall oracle: Oracle :: OpeningChallenge(p, oracle, tr, c, t) == OpeningChallenge(p, oracle, tr', c', t'))
            <==> tr == tr' && c == c' && t == t'
  {
    var m := [Bytes("dom", "qomm/opening"), Pt("C", c), Pt("T", t)];
    var m' := [Bytes("dom", "qomm/opening"), Pt("C", c'), Pt("T", t')];
    ChallengeBinds(p, tr + m, "c", tr' + m', "c");
    SameSplit(tr, m, tr', m');
    assert m == m' ==> m[1] == m'[1] && m[2] == m'[2];
    forall oracle: Oracle
      ensures OpeningChallenge(p, oracle, tr, c, t) == Challenge(p, oracle, tr + m, "c")
      ensures OpeningChallenge(p, oracle, tr', c', t') == Challenge(p, oracle, tr' + m', "c")
    {}
  }

  /** The zero opening's relation tag stays inside what its challenge binds. */
  lemma ZeroOpeningBinds(p: int, tr: Transcript, c: Point, t: Point, tr': Transcript, c': Point, t': Point)
    requires p > 1
    ensures (forall oracle: Oracle :: ZeroChallenge(p, oracle, tr, c, t) == ZeroChallenge(p, oracle, tr', c', t'))
            <==> tr == tr' && c == c' && t == t'
  {
    hide OpeningChallenge;
    OpeningBinds(p, ZeroRelation(tr), c, t, ZeroRelation(tr'), c', t');
    SameSplit(tr, [Bytes("relation", "zero-opening:v2")], tr', [Bytes("relation", "zero-opening:v2")]);
    forall oracle: Oracle
      ensures ZeroChallenge(p, oracle, tr, c, t) == OpeningChallenge(p, oracle, ZeroRelation(tr), c, t)
      ensures ZeroChallenge(p, oracle, tr', c', t') == OpeningChallenge(p, oracle, ZeroRelation(tr'), c', t')
    {}
  }

  /** A zero opening and an opening made over one transcript are never drawn alike. */
  lemma ZeroApartFromOpening(p: int, tr: Transcript, c: Point, t: Point, c': Point, t': Point)
    requires p > 1
    ensures exists oracle: Oracle :: ZeroChallenge(p, oracle, tr, c, t) != OpeningChallenge(p, oracle, tr, c', t')
  {
    hide OpeningChallenge;
    OpeningBinds(p, ZeroRelation(tr), c, t, tr, c', t');
    var oracle: Oracle :|
      OpeningChallenge(p, oracle, ZeroRelation(tr), c, t) != OpeningChallenge(p, oracle, tr, c', t');
    assert ZeroChallenge(p, oracle, tr, c, t) != OpeningChallenge(p, oracle, tr, c', t');
  }

  lemma BitBinds(p: int, tr: Transcript, c: Point, t0: Point, t1: Point, tr': Transcript, c': Point, t0': Point,
                 t1': Point)
    requires p > 1
    ensures (forall oracle: Oracle ::
               BitChallenge(p, oracle, tr, c, t0, t1) == BitChallenge(p, oracle, tr', c', t0', t1'))
            <==> tr == tr' && c == c' && t0 == t0' && t1 == t1'
  {
    var m := [Bytes("dom", "qomm/bit"), Pt("C", c), Pt("T0", t0), Pt("T1", t1)];
    var m' := [Bytes("dom", "qomm/bit"), Pt("C", c'), Pt("T0", t0'), Pt("T1", t1')];
    ChallengeBinds(p, tr + m, "c", tr' + m', "c");
    SameSplit(tr, m, tr', m');
    assert m == m' ==> m[1] == m'[1] && m[2] == m'[2] && m[3] == m'[3];
    forall oracle: Oracle
      ensures BitChallenge(p, oracle, tr, c, t0, t1) == Challenge(p, oracle, tr + m, "c")
      ensures BitChallenge(p, oracle, tr', c', t0', t1') == Challenge(p, oracle, tr' + m', "c")
    {}
  }

  lemma ProductBinds(p: int, tr: Transcript, claim: Claim, tf: Point, tp: Point, tr': Transcript, claim': Claim,
                     tf': Point, tp': Point)
    requires p > 1
    ensures (forall oracle: Oracle ::
               ProductChallenge(p, oracle, tr, claim, tf, tp) == ProductChallenge(p, oracle, tr', claim', tf', tp'))
            <==> tr == tr' && claim == claim' && tf == tf' && tp == tp'
  {
    var m := [Bytes("dom", "qomm/product"), Pt("Ca", claim.a), Pt("Cb", claim.b), Pt("Cc", claim.c), Pt("Tf", tf),
              Pt("Tp", tp)];
    var m' := [Bytes("dom", "qomm/product"), Pt("Ca", claim'.a), Pt("Cb", claim'.b), Pt("Cc", claim'.c), Pt("Tf", tf'),
               Pt("Tp", tp')];
    ChallengeBinds(p, tr + m, "c", tr' + m', "c");
    SameSplit(tr, m, tr', m');
    assert m == m' ==> m[1] == m'[1] && m[2] == m'[2] && m[3] == m'[3] && m[4] == m'[4] && m[5] == m'[5];
    forall oracle: Oracle
      ensures ProductChallenge(p, oracle, tr, claim, tf, tp) == Challenge(p, oracle, tr + m, "c")
      ensures ProductChallenge(p, oracle, tr', claim', tf', tp') == Challenge(p, oracle, tr' + m', "c")
    {}
  }

  // ----- one of many -----

  /** A counted list of points at the end of a transcript is read back whole. */
  lemma CountedTail(a: Transcript, tag: string, s: seq<Point>, a': Transcript, s': seq<Point>)
    requires a + PointMessages(tag, s) == a' + PointMessages(tag, s')
    ensures a == a' && s == s'
  {
    var m, m' := PointMessages(tag, s), PointMessages(tag, s');
    assert (a + m)[|a|] == Num("n", |s|) && (a' + m')[|a'|] == Num("n", |s'|);
    SameSplit(a, m, a', m');
    forall i | 0 <= i < |s| ensures s[i] == s'[i] {
      assert m[i + 1] == Pt(tag, s[i]) && m'[i + 1] == Pt(tag, s'[i]);
    }
  }

  /** The first move is read back list by list from its end. */
  lemma AppendedReadBack(tr: Transcript, cs: seq<Point>, cl: seq<Point>, ca: seq<Point>, cb: seq<Point>,
                          gk: seq<Point>, tr': Transcript, cs': seq<Point>, cl': seq<Point>, ca': seq<Point>,
                          cb': seq<Point>, gk': seq<Point>)
    requires Appended(tr, cs, cl, ca, cb, gk) == Appended(tr', cs', cl', ca', cb', gk')
    ensures tr == tr' && cs == cs' && cl == cl' && ca == ca' && cb == cb' && gk == gk'
  {
    hide PointMessages;
    var dom := [Bytes("dom", "qomm/gk")];
    var a, a' := tr + dom, tr' + dom;
    var b, b' := a + PointMessages("C", cs), a' + PointMessages("C", cs');
    var c, c' := b + PointMessages("cl", cl), b' + PointMessages("cl", cl');
    var d, d' := c + PointMessages("ca", ca), c' + PointMessages("ca", ca');
    var e, e' := d + PointMessages("cb", cb), d' + PointMessages("cb", cb');
    CountedTail(e, "gk", gk, e', gk');
    CountedTail(d, "cb", cb, d', cb');
    CountedTail(c, "ca", ca, c', ca');
    CountedTail(b, "cl", cl, b', cl');
    CountedTail(a, "C", cs, a', cs');
    SameSplit(tr, dom, tr', dom);
  }

  /** The membership challenge binds the set the proof is about, and all of the first move. */
  lemma GkBinds(p: int, tr: Transcript, cs: seq<Point>, cl: seq<Point>, ca: seq<Point>, cb: seq<Point>, gk: seq<Point>,
                tr': Transcript, cs': seq<Point>, cl': seq<Point>, ca': seq<Point>, cb': seq<Point>, gk': seq<Point>)
    requires p > 1
    ensures (forall oracle: Oracle ::
               GkChallenge(p, oracle, tr, cs, cl, ca, cb, gk) == GkChallenge(p, oracle, tr', cs', cl', ca', cb', gk'))
            <==> tr == tr' && cs == cs' && cl == cl' && ca == ca' && cb == cb' && gk == gk'
  {
    hide Appended;
    var t, t' := Appended(tr, cs, cl, ca, cb, gk), Appended(tr', cs', cl', ca', cb', gk');
    ChallengeBinds(p, t, "x", t', "x");
    if t == t' {
      AppendedReadBack(tr, cs, cl, ca, cb, gk, tr', cs', cl', ca', cb', gk');
    }
    forall oracle: Oracle
      ensures GkChallenge(p, oracle, tr, cs, cl, ca, cb, gk) == Challenge(p, oracle, t, "x")
      ensures GkChallenge(p, oracle, tr', cs', cl', ca', cb', gk') == Challenge(p, oracle, t', "x")
    {}
  }

  // ----- the components of a range proof -----

  lemma SameEnding(a: string, b: string, a': string, b': string)
    requires |b| == |b'| && a + b == a' + b'
    ensures a == a' && b == b'
  {
    assert a == (a + b)[..|a|] && a' == (a' + b')[..|a'|];
    assert b == (a + b)[|a|..] && b' == (a' + b')[|a'|..];
  }

  /** A component's transcript gives back its context and, for a bit, its position. */
  lemma ComponentsApart(context: string, i: nat, context': string, j: nat)
    requires i <= 65535 && j <= 65535
    ensures BitTranscript(context, i) == BitTranscript(context', j) <==> context == context' && i == j
    ensures LinkTranscript(context) == LinkTranscript(context') <==> context == context'
    ensures BitTranscript(context, i) != LinkTranscript(context')
  {
    var index := [(i / 256) as char, (i % 256) as char];
    var index' := [(j / 256) as char, (j % 256) as char];
    var bit, bit' := BitContext(context, i).value, BitContext(context', j).value;
    assert bit == context + (":bit:" + index) && bit' == context' + (":bit:" + index');
    assert BitTranscript(context, i)[1] == Bytes("context", bit);
    assert BitTranscript(context', j)[1] == Bytes("context", bit');
    if bit == bit' {
      SameEnding(context, ":bit:" + index, context', ":bit:" + index');
      SameEnding(":bit:", index, ":bit:", index');
      assert index[0] == index'[0] && index[1] == index'[1];
    }
    assert LinkTranscript(context)[1] == Bytes("context", context + ":link");
    assert LinkTranscript(context')[1] == Bytes("context", context' + ":link");
    if context + ":link" == context' + ":link" {
      SameEnding(context, ":link", context', ":link");
    }
    if bit == context' + ":link" {
      assert ("it:" + index)[0] == 'i' && bit == (context + ":b") + ("it:" + index);
      SameEnding(context + ":b", "it:" + index, context', ":link");
    }
  }

  /** One leaf's challenge binds the context, the position, the bit's commitment and its first move. */
  lemma LeafBinds(p: int, a: RangeProof, context: string, i: nat, b: RangeProof, context': string, j: nat)
    requires p > 1
    requires i < |a.bitProofs| && i < |a.bitCommitments| && i <= 65535
    requires j < |b.bitProofs| && j < |b.bitCommitments| && j <= 65535
    ensures (forall oracle: Oracle ::
               LeafChallenge(p, oracle, a, context, i) == LeafChallenge(p, oracle, b, context', j))
            <==> context == context' && i == j && a.bitCommitments[i] == b.bitCommitments[j]
                 && a.bitProofs[i].t0 == b.bitProofs[j].t0 && a.bitProofs[i].t1 == b.bitProofs[j].t1
  {
    hide BitChallenge, BitTranscript;
    var tr, tr' := BitTranscript(context, i), BitTranscript(context', j);
    var c, c', l, l' := a.bitCommitments[i], b.bitCommitments[j], a.bitProofs[i], b.bitProofs[j];
    BitBinds(p, tr, c, l.t0, l.t1, tr', c', l'.t0, l'.t1);
    ComponentsApart(context, i, context', j);
    forall oracle: Oracle
      ensures LeafChallenge(p, oracle, a, context, i) == BitChallenge(p, oracle, tr, c, l.t0, l.t1)
      ensures LeafChallenge(p, oracle, b, context', j) == BitChallenge(p, oracle, tr', c', l'.t0, l'.t1)
    {}
  }

  /** A side's context gives back the interval proof's context and the side, so the sides share no component. */
  lemma SidesApart(context: string, above: bool, context': string, above': bool)
    ensures SideContext(context, above) == SideContext(context', above') <==> context == context' && above == above'
  {
    if SideContext(context, above) == SideContext(context', above') {
      SameEnding(context, if above then "|above" else "|below", context', if above' then "|above" else "|below");
    }
  }
}
