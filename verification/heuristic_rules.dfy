/** The rule-based half of the anomaly detector. One engine keeps, per
    arbitration identifier, when it was last seen and its last payload, and
    checks every frame against three rules in a fixed order: a timeout on the
    gap since the identifier was last seen, bits that went from 0 to 1, and a
    DM1 frame that carries active fault records. */
module HeuristicRules {
  import opened CanFrame
  import opened BitMath

  /** Parameter group number of the J1939 DM1 message (active diagnostic trouble codes), 65226. */
  const Dm1Pgn: nat := 0xFECA

  /** Seconds of silence after which an identifier is reported, unless the engine is built with another value. */
  const DefaultTimeout: real := 0.5

  /** Fault records start at this payload offset ... */
  const DtcStart: nat := 8

  /** ... and are this many bytes long. */
  const DtcSize: nat := 4

  /** Why a frame was flagged. */
  datatype Reason =
    | Timeout(id: nat, delta: real)    // the identifier was silent for `delta` seconds
    | BitRise(index: nat, mask: Byte)  // the bits of `mask` in payload byte `index` went from 0 to 1
    | Dm1Fault                         // a DM1 frame holds an active fault record

  /** Engine state: the time each identifier was last seen, its last payload, and the timeout. */
  datatype HeuristicEngine = HeuristicEngine(lastSeen: map<nat, real>, prevData: map<nat, seq<Byte>>, timeout: real)

  /** What one `check` returns: the updated engine and the reasons found, in rule order. */
  datatype Checked = Checked(engine: HeuristicEngine, reasons: seq<Reason>)

  /** An engine that has seen nothing, with the given timeout. */
  function NewEngine(timeout: real): (e: HeuristicEngine)
    ensures Valid(e) && e.lastSeen == map[] && e.prevData == map[] && e.timeout == timeout
  {
    HeuristicEngine(map[], map[], timeout)
  }

  /** A new engine has seen nothing and waits half a second before reporting silence. */
  function DefaultEngine(): (e: HeuristicEngine)
    ensures Valid(e) && e.lastSeen == map[] && e.timeout == 0.5
  {
    NewEngine(DefaultTimeout)
  }

  /** Both maps always cover the same identifiers, since `check` writes both. */
  predicate Valid(e: HeuristicEngine)
  {
    e.lastSeen.Keys == e.prevData.Keys
  }

  // ---------------------------------------------------------------------------
  // Rule 1: timeout

  /** Whether the identifier was seen before and has been silent for longer than the timeout. */
  predicate TimedOut(e: HeuristicEngine, msg: Frame)
  {
    msg.id in e.lastSeen && msg.timestamp - e.lastSeen[msg.id] > e.timeout
  }

  function TimeoutRule(e: HeuristicEngine, msg: Frame): (r: seq<Reason>)
    ensures |r| <= 1
    ensures |r| == 1 <==> TimedOut(e, msg)
    ensures |r| == 1 ==> r[0] == Timeout(msg.id, msg.timestamp - e.lastSeen[msg.id])
  {
    if msg.id in e.lastSeen then
      var delta := msg.timestamp - e.lastSeen[msg.id];
      if delta > e.timeout then [Timeout(msg.id, delta)] else []
    else []
  }

  // ---------------------------------------------------------------------------
  // Rule 2: bits that went from 0 to 1

  /** The low `n` bits of `~p & c`: the bits set in `c` and clear in `p`, built
      bit by bit because Dafny's bitwise operators work on bit-vectors only. */
  function RiseBits(p: nat, c: nat, n: nat): (r: nat)
    ensures r < Pow2(n)
    ensures forall k :: 0 <= k < n ==> (BitOf(r, k) == 1 <==> BitOf(p, k) == 0 && BitOf(c, k) == 1)
  {
    if n == 0 then 0
    else
      var low := if p % 2 == 0 && c % 2 == 1 then 1 else 0;
      var high := RiseBits(p / 2, c / 2, n - 1);
      PrependBit(high, low, p, c, n);
      2 * high + low
  }

  lemma PrependBit(high: nat, low: nat, p: nat, c: nat, n: nat)
    requires n >= 1 && low <= 1 && (low == 1 <==> p % 2 == 0 && c % 2 == 1)
    requires high < Pow2(n - 1)
    requires forall k :: 0 <= k < n - 1 ==> (BitOf(high, k) == 1 <==> BitOf(p / 2, k) == 0 && BitOf(c / 2, k) == 1)
    ensures 2 * high + low < Pow2(n)
    ensures forall k :: 0 <= k < n ==> (BitOf(2 * high + low, k) == 1 <==> BitOf(p, k) == 0 && BitOf(c, k) == 1)
  {
    assert Pow2(1) == 2;
    forall k | 0 <= k < n
      ensures BitOf(2 * high + low, k) == 1 <==> BitOf(p, k) == 0 && BitOf(c, k) == 1
    {
      BitOfAppend(high, low, k);
      if k >= 1 {
        BitOfShift(p, 1, k - 1);
        BitOfShift(c, 1, k - 1);
      }
    }
  }

  /** `(~prev & cur) & 0xFF`: the bits of a payload byte that went from 0 to 1. */
  function RiseMask(prev: Byte, cur: Byte): (m: Byte)
    ensures forall k :: 0 <= k < 8 ==> (BitOf(m, k) == 1 <==> BitOf(prev, k) == 0 && BitOf(cur, k) == 1)
  {
    Pow2Byte();
    RiseBits(prev, cur, 8)
  }

  /** Every bit set in `cur` is set in `prev`: the byte changed, if at all, only by 1-to-0 transitions. */
  predicate OnlyFalling(prev: Byte, cur: Byte)
  {
    forall k :: 0 <= k < 8 && BitOf(cur, k) == 1 ==> BitOf(prev, k) == 1
  }

  /** The rise mask is empty exactly when no bit went from 0 to 1. */
  lemma RiseMaskZeroIffOnlyFalling(prev: Byte, cur: Byte)
    ensures RiseMask(prev, cur) == 0 <==> OnlyFalling(prev, cur)
  {
    var m := RiseMask(prev, cur);
    Pow2Byte();
    ZeroIffNoBits(m, 8);
  }

  /** One reason per byte position from `from` on whose rise mask is non-zero, in ascending position. */
  function BitRises(prev: seq<Byte>, cur: seq<Byte>, from: nat): (r: seq<Reason>)
    requires |prev| == |cur| && from <= |cur|
    decreases |cur| - from
    ensures forall k :: 0 <= k < |r| ==>
              && r[k].BitRise?
              && from <= r[k].index < |cur|
              && r[k].mask == RiseMask(prev[r[k].index], cur[r[k].index])
              && r[k].mask != 0
    ensures forall a, b :: 0 <= a < b < |r| ==> r[a].index < r[b].index
    ensures forall i :: from <= i < |cur| && RiseMask(prev[i], cur[i]) != 0 ==>
              BitRise(i, RiseMask(prev[i], cur[i])) in r
  {
    if from == |cur| then []
    else
      var m := RiseMask(prev[from], cur[from]);
      (if m != 0 then [BitRise(from, m)] else []) + BitRises(prev, cur, from + 1)
  }

  /** The bit rule applies only when the identifier has a recorded payload of the same length. */
  predicate Comparable(e: HeuristicEngine, msg: Frame)
  {
    msg.id in e.prevData && |e.prevData[msg.id]| == |msg.data|
  }

  function BitRule(e: HeuristicEngine, msg: Frame): seq<Reason>
  {
    if Comparable(e, msg) then BitRises(e.prevData[msg.id], msg.data, 0) else []
  }

  // ---------------------------------------------------------------------------
  // Rule 3: DM1 fault presence

  /** Bits 8..23 of the identifier are the DM1 group number; priority bits and
      source address are free. */
  function IsDm1(id: nat): (b: bool)
    ensures b <==> id == (id / 0x100_0000) * 0x100_0000 + Dm1Pgn * 0x100 + id % 0x100
  {
    (id / 0x100) % 0x1_0000 == Dm1Pgn
  }

  /** A fault record is active when one of its bytes is neither 0x00 nor 0xFF. */
  predicate Active(record: seq<Byte>)
  {
    exists j :: 0 <= j < |record| && record[j] != 0x00 && record[j] != 0xFF
  }

  /** Record `k` occupies payload bytes `8 + 4k` to `8 + 4k + 3`. */
  predicate RecordFits(data: seq<Byte>, k: nat)
  {
    DtcStart + DtcSize * (k + 1) <= |data|
  }

  function Record(data: seq<Byte>, k: nat): seq<Byte>
    requires RecordFits(data, k)
  {
    data[DtcStart + DtcSize * k .. DtcStart + DtcSize * (k + 1)]
  }

  /** Whether any of records `from` to `count - 1` is active; stops at the first active one. */
  function AnyActive(data: seq<Byte>, from: nat, count: nat): (b: bool)
    requires from <= count && (count == 0 || RecordFits(data, count - 1))
    decreases count - from
    ensures b <==> exists k :: from <= k < count && Active(Record(data, k))
  {
    if from == count then false
    else Active(Record(data, from)) || AnyActive(data, from + 1, count)
  }

  /** Whether the payload holds an active fault record. Only complete records
      count: a payload shorter than 12 bytes holds none, and a trailing partial
      record is ignored. */
  function HasDm1Fault(data: seq<Byte>): (b: bool)
    ensures |data| < DtcStart + DtcSize ==> !b
    ensures b <==> exists k: nat :: RecordFits(data, k) && Active(Record(data, k))
  {
    // Python's floor division; negative when the payload is shorter than 8 bytes.
    var count := (|data| - DtcStart) / DtcSize;
    if count <= 0 then false
    else
      var r := AnyActive(data, 0, count);
      assert r <==> exists k: nat :: RecordFits(data, k) && Active(Record(data, k)) by {
        forall k: nat | RecordFits(data, k)
          ensures k < count
        {
        }
      }
      r
  }

  function Dm1Rule(msg: Frame): (r: seq<Reason>)
    ensures r == [] || r == [Dm1Fault]
    ensures r == [Dm1Fault] <==> IsDm1(msg.id) && HasDm1Fault(msg.data)
  {
    if IsDm1(msg.id) && HasDm1Fault(msg.data) then [Dm1Fault] else []
  }

  // ---------------------------------------------------------------------------
  // check

  /** Rules report in order: the timeout first, then bit rises by ascending byte, then the DM1 fault. */
  function Rank(r: Reason): nat
  {
    match r
    case Timeout(_, _) => 0
    case BitRise(_, _) => 1
    case Dm1Fault => 2
  }

  predicate InRuleOrder(rs: seq<Reason>)
  {
    forall a, b :: 0 <= a < b < |rs| ==>
      Rank(rs[a]) < Rank(rs[b]) || (rs[a].BitRise? && rs[b].BitRise? && rs[a].index < rs[b].index)
  }

  /** The bit rule fires for byte `i` with mask `m`. */
  predicate RoseAt(e: HeuristicEngine, msg: Frame, i: nat, m: Byte)
  {
    Comparable(e, msg) && i < |msg.data| && m == RiseMask(e.prevData[msg.id][i], msg.data[i]) && m != 0
  }

  /** A timeout list, then bit rises by ascending byte, then a DM1 list, together are in rule order. */
  lemma ConcatInRuleOrder(t: seq<Reason>, b: seq<Reason>, d: seq<Reason>)
    requires |t| <= 1 && forall k :: 0 <= k < |t| ==> t[k].Timeout?
    requires forall k :: 0 <= k < |b| ==> b[k].BitRise?
    requires forall x, y :: 0 <= x < y < |b| ==> b[x].index < b[y].index
    requires |d| <= 1 && forall k :: 0 <= k < |d| ==> d[k].Dm1Fault?
    ensures InRuleOrder(t + b + d)
  {
    var rs := t + b + d;
    forall k | 0 <= k < |rs|
      ensures k < |t| ==> rs[k] == t[k]
      ensures |t| <= k < |t| + |b| ==> rs[k] == b[k - |t|]
      ensures |t| + |b| <= k ==> rs[k] == d[k - |t| - |b|]
    {
    }
  }

  /** The state half of `check`: the identifier's time and payload are recorded. */
  function Observe(e: HeuristicEngine, msg: Frame): HeuristicEngine
  {
    HeuristicEngine(e.lastSeen[msg.id := msg.timestamp], e.prevData[msg.id := msg.data], e.timeout)
  }

  /** One `check` call: every rule runs, none suppresses another, and the
      identifier's time and payload are recorded whatever the outcome. */
  function Check(e: HeuristicEngine, msg: Frame): (c: Checked)
    ensures c.engine == HeuristicEngine(e.lastSeen[msg.id := msg.timestamp], e.prevData[msg.id := msg.data], e.timeout)
    ensures Valid(e) ==> Valid(c.engine)
    ensures InRuleOrder(c.reasons)
    ensures TimedOut(e, msg) ==> |c.reasons| > 0 && c.reasons[0] == Timeout(msg.id, msg.timestamp - e.lastSeen[msg.id])
    ensures !TimedOut(e, msg) ==> forall r :: r in c.reasons ==> !r.Timeout?
    ensures Dm1Fault in c.reasons <==> IsDm1(msg.id) && HasDm1Fault(msg.data)
  {
    var timeout, bits, dm1 := TimeoutRule(e, msg), BitRule(e, msg), Dm1Rule(msg);
    ConcatInRuleOrder(timeout, bits, dm1);
    Checked(Observe(e, msg), timeout + bits + dm1)
  }

  /** The bit rule reports byte `i` with mask `m` exactly when the identifier
      has a previous payload of the same length and some bit of byte `i` went
      from 0 to 1, `m` being those bits. */
  lemma CheckBitRises(e: HeuristicEngine, msg: Frame, i: nat, m: Byte)
    ensures BitRise(i, m) in Check(e, msg).reasons <==> RoseAt(e, msg, i, m)
  {
    var t, b, d := TimeoutRule(e, msg), BitRule(e, msg), Dm1Rule(msg);
    assert Check(e, msg).reasons == t + b + d;
    assert BitRise(i, m) !in t && BitRise(i, m) !in d;
    if BitRise(i, m) in b {
      var k :| 0 <= k < |b| && b[k] == BitRise(i, m);
    }
  }

  /** The first frame of an identifier can only be reported as a DM1 fault:
      there is no earlier time to time out against and no earlier payload. */
  lemma FirstSightOnlyDm1(e: HeuristicEngine, msg: Frame)
    requires Valid(e) && msg.id !in e.lastSeen
    ensures forall r :: r in Check(e, msg).reasons ==> r == Dm1Fault
  {
    forall r | r in Check(e, msg).reasons
      ensures r == Dm1Fault
    {
      if r.BitRise? {
        CheckBitRises(e, msg, r.index, r.mask);
      }
    }
  }

  /** A payload whose bytes changed only by 1-to-0 transitions raises no bit reason. */
  lemma OnlyFallingNoBitRise(e: HeuristicEngine, msg: Frame)
    requires Comparable(e, msg)
    requires forall i :: 0 <= i < |msg.data| ==> OnlyFalling(e.prevData[msg.id][i], msg.data[i])
    ensures forall r :: r in Check(e, msg).reasons ==> !r.BitRise?
  {
    forall r | r in Check(e, msg).reasons && r.BitRise?
      ensures false
    {
      CheckBitRises(e, msg, r.index, r.mask);
      RiseMaskZeroIffOnlyFalling(e.prevData[msg.id][r.index], msg.data[r.index]);
    }
  }

  // ---------------------------------------------------------------------------
  // A stream of frames

  /** Some frame of the stream carries identifier `id`. */
  predicate Mentions(frames: seq<Frame>, id: nat)
  {
    exists k :: 0 <= k < |frames| && frames[k].id == id
  }

  /** Frame `k` is the stream's last frame with its identifier. */
  predicate LatestOf(frames: seq<Frame>, k: int)
    requires 0 <= k < |frames|
  {
    forall j :: k < j < |frames| ==> frames[j].id != frames[k].id
  }

  lemma LatestOfPrefix(frames: seq<Frame>, k: int)
    requires 0 <= k < |frames| - 1 && LatestOf(frames, k)
    ensures var init := frames[..|frames| - 1];
            init[k] == frames[k] && LatestOf(init, k) && frames[k].id != frames[|frames| - 1].id
  {
  }

  lemma MentionsExtend(frames: seq<Frame>, id: nat)
    requires |frames| > 0
    ensures (Mentions(frames[..|frames| - 1], id) || id == frames[|frames| - 1].id) ==> Mentions(frames, id)
  {
    var init := frames[..|frames| - 1];
    if Mentions(init, id) {
      var k :| 0 <= k < |init| && init[k].id == id;
      assert frames[k].id == id;
    }
    if id == frames[|frames| - 1].id {
      assert frames[|frames| - 1].id == id;
    }
  }

  /** The engine after checking the frames one after another, each call's reasons aside. */
  function Replay(e: HeuristicEngine, frames: seq<Frame>): HeuristicEngine
  {
    if |frames| == 0 then e
    else Check(Replay(e, frames[..|frames| - 1]), frames[|frames| - 1]).engine
  }

  /** After a stream, an identifier of the stream holds the time and payload of its latest frame. */
  lemma {:induction false} ReplayKeepsLatest(e: HeuristicEngine, frames: seq<Frame>, k: int)
    requires 0 <= k < |frames| && LatestOf(frames, k)
    ensures var r := Replay(e, frames);
            && frames[k].id in r.lastSeen && r.lastSeen[frames[k].id] == frames[k].timestamp
            && frames[k].id in r.prevData && r.prevData[frames[k].id] == frames[k].data
  {
    if k < |frames| - 1 {
      LatestOfPrefix(frames, k);
      ReplayKeepsLatest(e, frames[..|frames| - 1], k);
    }
  }

  /** After a stream, an identifier the stream never carried is as it was, timeout included. */
  lemma {:induction false} ReplayLeavesOthers(e: HeuristicEngine, frames: seq<Frame>, id: nat)
    requires !Mentions(frames, id)
    ensures var r := Replay(e, frames);
            && r.timeout == e.timeout
            && (id in r.lastSeen <==> id in e.lastSeen)
            && (id in e.lastSeen ==> r.lastSeen[id] == e.lastSeen[id])
            && (id in r.prevData <==> id in e.prevData)
            && (id in e.prevData ==> r.prevData[id] == e.prevData[id])
  {
    if |frames| > 0 {
      MentionsExtend(frames, id);
      ReplayLeavesOthers(e, frames[..|frames| - 1], id);
    }
  }
}
