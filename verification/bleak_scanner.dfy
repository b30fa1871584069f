/** bleak_scanner.py: the earlier receiver for 30 node slots. It reads
    three pair slots and writes distances straight into the matrix, both
    cells of a pair at once, so the latest frame wins. It has no guard on
    the service data: a missing payload, a short one or an out-of-range
    node id raises part-way through the callback. */
module BleakScanner {
  import opened Bytes
  import opened Grid
  import opened Advert

  /** Node slots. */
  const N: nat := 30
  /** The receiver itself, node 0. */
  const Anchor: nat := 0
  /** Pair slots the loop reads. */
  const PairSlots: nat := 3

  datatype State = State(
    txPower: seq<int>,       // tx_power_matrix
    seen: set<int>,          // seen_students
    matrix: seq<seq<real>>)  // matrix

  ghost predicate Valid(st: State) {
    |st.txPower| == N && IsSquare(st.matrix, N)
  }

  /** The module-level initial state: zero tx powers, nobody seen, the
      all-zero matrix. */
  function Init(): (st: State)
    ensures Valid(st) && Symmetric(st.matrix, N)
    ensures st.seen == {}
    ensures forall i :: 0 <= i < N ==> st.txPower[i] == 0
    ensures forall i, j :: 0 <= i < N && 0 <= j < N ==> st.matrix[i][j] == 0.0
  {
    State(seq(N, _ => 0), {}, seq(N, _ => seq(N, _ => 0.0)))
  }

  /** Pair slot q of `raw` is readable and names a non-zero peer whose
      subscript is legal and picks list slot p. */
  predicate SlotWrites(raw: seq<byte>, q: nat, p: nat) {
    && 3 + 2 * q < |raw|
    && Signed(raw[2 + 2 * q]) != 0
    && InRange(Signed(raw[2 + 2 * q]), N)
    && PyIndex(Signed(raw[2 + 2 * q]), N) == p
  }

  /** The distance slot q of `raw` reports. */
  function SlotDistance(raw: seq<byte>, q: nat, tx: int, dist: DistanceModel): real
    requires 3 + 2 * q < |raw|
  {
    dist(Signed(raw[3 + 2 * q]), tx)
  }

  /** Slot q is the last of slots q.. to write peer p. */
  predicate LastWriter(raw: seq<byte>, q: nat, p: nat) {
    && SlotWrites(raw, q, p)
    && forall q' :: q < q' < PairSlots ==> !SlotWrites(raw, q', p)
  }

  /** The `for i in range(3)` loop from slot k on, for the sender in list
      slot `s` whose stored tx power is `tx`. Each non-zero peer gets the
      same distance in both cells of its pair. A byte past the end of
      `raw` raises struct.error and a peer id outside -30..29 raises
      IndexError before its cells are written. */
  function WritePairs(raw: seq<byte>, k: nat, s: nat, m: seq<seq<real>>, tx: int, dist: DistanceModel)
    : (r: Outcome<seq<seq<real>>>)
    requires k <= PairSlots && s < N && IsSquare(m, N)
    ensures IsSquare(r.state, N)
    ensures Symmetric(m, N) ==> Symmetric(r.state, N)
    // Only the sender's row and column change.
    ensures forall i, j :: 0 <= i < N && 0 <= j < N && i != s && j != s ==> r.state[i][j] == m[i][j]
    // A pair no slot from k on writes keeps both cells.
    ensures r.Done? ==> forall p :: 0 <= p < N && (forall q :: k <= q < PairSlots ==> !SlotWrites(raw, q, p)) ==>
      r.state[s][p] == m[s][p] && r.state[p][s] == m[p][s]
    // Latest wins: a pair's cells hold the distance of the last slot naming it.
    ensures r.Done? ==> forall q, p :: k <= q < PairSlots && 0 <= p < N && LastWriter(raw, q, p) ==>
      r.state[s][p] == SlotDistance(raw, q, tx, dist) && r.state[p][s] == SlotDistance(raw, q, tx, dist)
    // Three readable slots with legal peers never raise.
    ensures |raw| >= 2 + 2 * PairSlots && (forall q :: k <= q < PairSlots ==> InRange(Signed(raw[2 + 2 * q]), N)) ==>
      r.Done?
    decreases PairSlots - k
  {
    if k == PairSlots then Done(m)
    else
      var off := 2 + 2 * k;
      if off >= |raw| then Failed(m)
      else
        var id := Signed(raw[off]);
        if id == 0 then WritePairs(raw, k + 1, s, m, tx, dist)
        else if off + 1 >= |raw| then Failed(m)
        else
          var d := dist(Signed(raw[off + 1]), tx);
          if !InRange(id, N) then Failed(m)
          else
            assert SlotWrites(raw, k, PyIndex(id, N));
            WritePairs(raw, k + 1, s, SetPair(m, N, s, PyIndex(id, N), d), tx, dist)
  }

  /** detection_callback of bleak_scanner.py. */
  function DetectionCallback(name: Option<string>, ad: Advertisement, st: State, dist: DistanceModel)
    : (r: Outcome<State>)
    requires Valid(st)
    ensures Valid(r.state)
    ensures !FrameAccepted(name, ad) ==> r == Done(st)
    // Symmetry survives every callback, even one that raises part-way.
    ensures Symmetric(st.matrix, N) ==> Symmetric(r.state.matrix, N)
    // No payload (TypeError) or fewer than two bytes (struct.error): raise
    // before any write.
    ensures FrameAccepted(name, ad) && !HasPayload(ad, TargetServiceUuid, 2) ==> r == Failed(st)
    // A sender id outside -30..29 raises IndexError before any write.
    ensures (&& FrameAccepted(name, ad) && HasPayload(ad, TargetServiceUuid, 2)
             && !InRange(Signed(ad.serviceData[TargetServiceUuid][1]), N)) ==> r == Failed(st)
    // A full frame whose sender and peer ids are all legal is processed.
    ensures (&& FrameAccepted(name, ad) && HasPayload(ad, TargetServiceUuid, 2 + 2 * PairSlots)
             && InRange(Signed(ad.serviceData[TargetServiceUuid][1]), N)
             && (forall q :: 0 <= q < PairSlots ==> InRange(Signed(ad.serviceData[TargetServiceUuid][2 + 2 * q]), N)))
      ==> r.Done?
    ensures (&& FrameAccepted(name, ad) && HasPayload(ad, TargetServiceUuid, 2)
             && InRange(Signed(ad.serviceData[TargetServiceUuid][1]), N)) ==>
      var raw := ad.serviceData[TargetServiceUuid];
      var s := PyIndex(Signed(raw[1]), N);
      var tx := Signed(raw[0]);
      // The tx power is stored before the loop; the id is recorded as seen
      // only once the loop has finished.
      && r.state.txPower == st.txPower[s := tx]
      && r.state.seen == (if r.Done? then st.seen + {Signed(raw[1])} else st.seen)
      // Only the sender's row and column change.
      && (forall i, j :: 0 <= i < N && 0 <= j < N && i != s && j != s ==> r.state.matrix[i][j] == st.matrix[i][j])
      && (r.Done? ==>
            // The anchor row and column hold the distance from the received rssi.
            && r.state.matrix[Anchor][s] == dist(ad.rssi, tx)
            && r.state.matrix[s][Anchor] == dist(ad.rssi, tx)
            // Cells are assigned, not accumulated: the last slot naming a peer
            // decides both cells of the pair, whatever they held before.
            && (forall q, p :: 0 <= q < PairSlots && 0 < p < N && LastWriter(raw, q, p) ==>
                  r.state.matrix[s][p] == SlotDistance(raw, q, tx, dist)
                  && r.state.matrix[p][s] == SlotDistance(raw, q, tx, dist)))
  {
    if !FrameAccepted(name, ad) then Done(st)
    else if TargetServiceUuid !in ad.serviceData then Failed(st)
    else
      var raw := ad.serviceData[TargetServiceUuid];
      if |raw| < 2 then Failed(st)
      else
        var tx := Signed(raw[0]);
        var id := Signed(raw[1]);
        if !InRange(id, N) then Failed(st)
        else
          var s := PyIndex(id, N);
          var st1 := st.(txPower := st.txPower[s := tx]);
          match WritePairs(raw, 0, s, st1.matrix, st1.txPower[s], dist)
          case Failed(m) => Failed(st1.(matrix := m))
          case Done(m) =>
            var d := dist(ad.rssi, tx);
            Done(st1.(seen := st1.seen + {id}, matrix := SetPair(m, N, Anchor, s, d)))
  }

  /** The state after the scanner has delivered `frames` in order; a
      callback that raised leaves its partial writes behind. */
  function Run(st: State, frames: seq<Sighting>, dist: DistanceModel): (r: State)
    requires Valid(st)
    ensures Valid(r)
    decreases |frames|
  {
    if |frames| == 0 then st
    else Run(DetectionCallback(frames[0].name, frames[0].ad, st, dist).state, frames[1..], dist)
  }

  lemma {:induction false} RunKeepsSymmetry(st: State, frames: seq<Sighting>, dist: DistanceModel)
    requires Valid(st) && Symmetric(st.matrix, N)
    ensures Symmetric(Run(st, frames, dist).matrix, N)
    decreases |frames|
  {
    if |frames| > 0 {
      RunKeepsSymmetry(DetectionCallback(frames[0].name, frames[0].ad, st, dist).state, frames[1..], dist);
    }
  }
}
