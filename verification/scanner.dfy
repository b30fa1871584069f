/** scanner.py: the receiver that decodes `[tx_power, sender_id,
    (peer_id, rssi) x 10]` service-data frames, accumulates per-pair
    distance readings for 256 node slots, and reduces them to a symmetric
    distance matrix after every callback. */
module Scanner {
  import opened Bytes
  import opened Grid
  import opened Advert
  import opened Clustering

  /** Node slots: one per byte value. */
  const N: nat := 256
  /** The receiver itself, node 0. */
  const Anchor: nat := 0
  /** The length guard of detection_callback. */
  const MinFrameLength: nat := 8
  /** Pair slots the loop reads. */
  const PairSlots: nat := 10
  /** 2 + 2 * PairSlots: the bytes the pair loop can read. */
  const FullFrameLength: nat := 22
  /** A pair reading is kept only when its distance exceeds this. */
  const MinPairDistance: real := 0.5

  /** `matrix_vectors[m][n]`: the readings of the ordered pair (m, n). */
  type Readings = seq<seq<seq<real>>>

  datatype ScannerState = ScannerState(
    txPower: seq<int>,       // tx_power_matrix
    seen: set<int>,          // seen_students
    vectors: Readings,       // matrix_vectors
    matrix: seq<seq<real>>)  // matrix

  ghost predicate Valid(st: ScannerState) {
    |st.txPower| == N && IsSquare(st.vectors, N) && IsSquare(st.matrix, N)
  }

  /** The module-level initial state: zero tx powers, nobody seen, no
      readings, the all-zero matrix. */
  function Init(): (st: ScannerState)
    ensures Valid(st) && Symmetric(st.matrix, N)
    ensures st.seen == {}
    ensures forall i :: 0 <= i < N ==> st.txPower[i] == 0
    ensures forall i, j :: 0 <= i < N && 0 <= j < N ==> st.vectors[i][j] == [] && st.matrix[i][j] == 0.0
  {
    ScannerState(seq(N, _ => 0), {}, seq(N, _ => seq(N, _ => [])), seq(N, _ => seq(N, _ => 0.0)))
  }

  // ---------------------------------------------------------------- fill

  /** The unordered pair {m, n} has readings in at least one direction. */
  predicate HasReadings(v: Readings, m: nat, n: nat)
    requires IsSquare(v, N) && m < N && n < N
  {
    |v[m][n]| > 0 || |v[n][m]| > 0
  }

  /** The value cell (i, j) holds once fill_distance_matrix has run. */
  function FilledCell(v: Readings, mat: seq<seq<real>>, tol: real, i: nat, j: nat): real
    requires IsSquare(v, N) && IsSquare(mat, N) && i < N && j < N
  {
    if i < j && HasReadings(v, i, j) then FindBestDistance(v[i][j] + v[j][i], tol)
    else if j < i && HasReadings(v, j, i) then FindBestDistance(v[j][i] + v[i][j], tol)
    else mat[i][j]
  }

  /** The matrix fill_distance_matrix leaves: both cells of every pair
      with readings hold the reduction of that pair's readings, every
      other cell and the diagonal keep their value, and symmetry is
      kept. */
  function Filled(v: Readings, mat: seq<seq<real>>, tol: real): (r: seq<seq<real>>)
    requires IsSquare(v, N) && IsSquare(mat, N)
    ensures IsSquare(r, N)
    ensures forall m, n :: 0 <= m < n < N && HasReadings(v, m, n) ==>
      r[m][n] == FindBestDistance(v[m][n] + v[n][m], tol) && r[n][m] == r[m][n]
    ensures forall m, n :: 0 <= m < N && 0 <= n < N && (m == n || !HasReadings(v, m, n)) ==>
      r[m][n] == mat[m][n]
    ensures Symmetric(mat, N) ==> Symmetric(r, N)
  {
    seq(N, i requires 0 <= i < N => seq(N, j requires 0 <= j < N => FilledCell(v, mat, tol, i, j)))
  }

  function Min(a: nat, b: nat): nat { if a < b then a else b }
  function Max(a: nat, b: nat): nat { if a < b then b else a }

  /** `r` is the matrix once the loop of fill_distance_matrix has handled
      every pair {i, j} with min(i, j) < m, and the pairs (m, j) with
      j < n: those cells hold their value in the target `f`, all others
      their old value in `mat`. */
  ghost predicate FilledUpTo(r: seq<seq<real>>, f: seq<seq<real>>, mat: seq<seq<real>>, m: nat, n: nat)
    requires IsSquare(f, N) && IsSquare(mat, N)
  {
    && IsSquare(r, N)
    && forall i, j :: 0 <= i < N && 0 <= j < N ==>
         r[i][j] == if Min(i, j) < m || (Min(i, j) == m && m < Max(i, j) < n) then f[i][j] else mat[i][j]
  }

  /** One step of the inner loop: writing the reduction to (m, n) and then
      to (n, m), for a pair with readings, handles pair (m, n). */
  lemma FillStep(v: Readings, mat: seq<seq<real>>, tol: real, before: seq<seq<real>>, r: seq<seq<real>>, m: nat, n: nat)
    requires IsSquare(v, N) && IsSquare(mat, N) && m < n < N
    requires FilledUpTo(before, Filled(v, mat, tol), mat, m, n)
    requires r == if HasReadings(v, m, n)
      then SetPair(before, N, m, n, FindBestDistance(v[m][n] + v[n][m], tol))
      else before
    ensures FilledUpTo(r, Filled(v, mat, tol), mat, m, n + 1)
  {
    var f := Filled(v, mat, tol);
    forall i, j | 0 <= i < N && 0 <= j < N
      ensures r[i][j] == if Min(i, j) < m || (Min(i, j) == m && m < Max(i, j) < n + 1) then f[i][j] else mat[i][j]
    {
      if (i == m && j == n) || (i == n && j == m) {
      } else {
        assert r[i][j] == before[i][j];
      }
    }
  }

  /** A finished inner loop for row m is the starting point for row m + 1:
      the diagonal cell (m, m) keeps its value either way. */
  lemma FillNextRow(v: Readings, mat: seq<seq<real>>, tol: real, r: seq<seq<real>>, m: nat)
    requires IsSquare(v, N) && IsSquare(mat, N) && m < N
    requires FilledUpTo(r, Filled(v, mat, tol), mat, m, N)
    ensures FilledUpTo(r, Filled(v, mat, tol), mat, m + 1, m + 2)
  {
    var f := Filled(v, mat, tol);
    assert f[m][m] == mat[m][m];
  }

  /** After the loop every cell holds its filled value. */
  lemma FillDone(f: seq<seq<real>>, mat: seq<seq<real>>, r: seq<seq<real>>)
    requires IsSquare(f, N) && IsSquare(mat, N)
    requires FilledUpTo(r, f, mat, N, N + 1)
    ensures r == f
  {
    forall i | 0 <= i < N ensures r[i] == f[i] {
      assert forall j :: 0 <= j < N ==> r[i][j] == f[i][j];
    }
  }

  /** The nested `for m` / `for n in range(m + 1, N)` loop of
      fill_distance_matrix, writing `matrix[m][n]` and then
      `matrix[n][m]` for each pair with readings. */
  method FillDistanceMatrix(v: Readings, mat: seq<seq<real>>, tol: real) returns (r: seq<seq<real>>)
    requires IsSquare(v, N) && IsSquare(mat, N)
    ensures r == Filled(v, mat, tol)
  {
    r := mat;
    var m := 0;
    while m < N
      invariant 0 <= m <= N
      invariant FilledUpTo(r, Filled(v, mat, tol), mat, m, m + 1)
    {
      r := FillRow(v, mat, tol, r, m);
      FillNextRow(v, mat, tol, r, m);
      m := m + 1;
    }
    FillDone(Filled(v, mat, tol), mat, r);
  }

  /** The inner loop for row m: every pair (m, n) with n > m. */
  method FillRow(v: Readings, mat: seq<seq<real>>, tol: real, r0: seq<seq<real>>, m: nat) returns (r: seq<seq<real>>)
    requires IsSquare(v, N) && IsSquare(mat, N) && m < N
    requires FilledUpTo(r0, Filled(v, mat, tol), mat, m, m + 1)
    ensures FilledUpTo(r, Filled(v, mat, tol), mat, m, N)
  {
    r := r0;
    var n := m + 1;
    while n < N
      invariant m + 1 <= n <= N
      invariant FilledUpTo(r, Filled(v, mat, tol), mat, m, n)
    {
      ghost var before := r;
      r := FillPair(v, tol, r, m, n);
      FillStep(v, mat, tol, before, r, m, n);
      n := n + 1;
    }
  }

  /** The body of the inner loop: for a pair with readings, write the
      reduction to (m, n), then copy (m, n) to (n, m). */
  method FillPair(v: Readings, tol: real, r0: seq<seq<real>>, m: nat, n: nat) returns (r: seq<seq<real>>)
    requires IsSquare(v, N) && IsSquare(r0, N) && m < N && n < N
    ensures r == if HasReadings(v, m, n)
      then SetPair(r0, N, m, n, FindBestDistance(v[m][n] + v[n][m], tol))
      else r0
  {
    r := r0;
    if |v[m][n]| > 0 || |v[n][m]| > 0 {
      var d := FindBestDistance(v[m][n] + v[n][m], tol);
      r := SetCell(r, N, m, n, d);
      r := SetCell(r, N, n, m, r[m][n]);
    }
  }

  // ------------------------------------------------------------ callback

  /** `matrix_vectors[i][j].append(d)`. */
  function AppendReading(v: Readings, i: nat, j: nat, d: real): (r: Readings)
    requires IsSquare(v, N) && i < N && j < N
    ensures IsSquare(r, N)
    ensures r[i][j] == v[i][j] + [d]
    ensures forall a, b :: 0 <= a < N && 0 <= b < N && (a != i || b != j) ==> r[a][b] == v[a][b]
  {
    SetCell(v, N, i, j, v[i][j] + [d])
  }

  /** The readings pair slots k.. of `raw` add to list (sender, p), in slot
      order: a slot counts when its peer byte is non-zero, its rssi byte is
      present, its peer names slot p and its distance exceeds 0.5. */
  function PairReadings(raw: seq<byte>, k: nat, p: nat, tx: int, dist: DistanceModel): seq<real>
    requires k <= PairSlots
    decreases PairSlots - k
  {
    if k == PairSlots || 2 + 2 * k >= |raw| then []
    else
      var peer := Signed(raw[2 + 2 * k]);
      var here :=
        if peer != 0 && 3 + 2 * k < |raw| && PyIndex(peer, N) == p
           && dist(Signed(raw[3 + 2 * k]), tx) > MinPairDistance
        then [dist(Signed(raw[3 + 2 * k]), tx)]
        else [];
      here + PairReadings(raw, k + 1, p, tx, dist)
  }

  /** `matrix_vectors[s][p].append(d)` on the sender's row `row`. */
  function AppendToList(row: seq<seq<real>>, p: nat, d: real): (r: seq<seq<real>>)
    requires |row| == N && p < N
    ensures |r| == N
    ensures r[p] == row[p] + [d]
    ensures forall q :: 0 <= q < N && q != p ==> r[q] == row[q]
  {
    row[p := row[p] + [d]]
  }

  /** The `for i in range(10)` loop from slot k on, on the row `row` of the
      sender, whose stored tx power is `tx`. Reading a byte past the end of
      `raw` raises struct.error, which happens exactly when the frame is
      shorter than 21 bytes, or is 21 bytes with a non-zero last peer
      byte. */
  function ReadPairs(raw: seq<byte>, k: nat, row: seq<seq<real>>, tx: int, dist: DistanceModel)
    : (r: Outcome<seq<seq<real>>>)
    requires k <= PairSlots && |row| == N
    ensures |r.state| == N
    ensures r.Failed? <==> k < PairSlots && (|raw| < 21 || (|raw| == 21 && raw[20] != 0))
    decreases PairSlots - k
  {
    if k == PairSlots then Done(row)
    else
      var off := 2 + 2 * k;
      if off >= |raw| then Failed(row)
      else
        var peer := Signed(raw[off]);
        if peer == 0 then ReadPairs(raw, k + 1, row, tx, dist)
        else if off + 1 >= |raw| then Failed(row)
        else
          var d := dist(Signed(raw[off + 1]), tx);
          var row' := if d > MinPairDistance then AppendToList(row, PyIndex(peer, N), d) else row;
          ReadPairs(raw, k + 1, row', tx, dist)
  }

  /** Whether or not it completes, the pair loop only appends to the lists
      of the row. */
  lemma {:induction false} ReadPairsAppends(raw: seq<byte>, k: nat, row: seq<seq<real>>, tx: int, dist: DistanceModel)
    requires k <= PairSlots && |row| == N
    ensures var r := ReadPairs(raw, k, row, tx, dist);
      forall p :: 0 <= p < N ==> row[p] <= r.state[p]
    decreases PairSlots - k
  {
    if k < PairSlots && 2 + 2 * k < |raw| {
      var peer := Signed(raw[2 + 2 * k]);
      if peer == 0 {
        ReadPairsAppends(raw, k + 1, row, tx, dist);
      } else if 3 + 2 * k < |raw| {
        var d := dist(Signed(raw[3 + 2 * k]), tx);
        var row' := if d > MinPairDistance then AppendToList(row, PyIndex(peer, N), d) else row;
        ReadPairsAppends(raw, k + 1, row', tx, dist);
        forall p | 0 <= p < N ensures row[p] <= ReadPairs(raw, k, row, tx, dist).state[p] {
          assert row[p] <= row'[p];
        }
      }
    }
  }

  /** A pair loop that completes adds to each list p of the row exactly
      the readings PairReadings selects, in slot order. */
  lemma {:induction false} ReadPairsRow(raw: seq<byte>, k: nat, row: seq<seq<real>>, tx: int, dist: DistanceModel)
    requires k <= PairSlots && |row| == N
    ensures var r := ReadPairs(raw, k, row, tx, dist);
      r.Done? ==> forall p :: 0 <= p < N ==> r.state[p] == row[p] + PairReadings(raw, k, p, tx, dist)
    decreases PairSlots - k, 1
  {
    if k < PairSlots && 2 + 2 * k < |raw| {
      if Signed(raw[2 + 2 * k]) == 0 {
        ReadPairsRow(raw, k + 1, row, tx, dist);
        forall p | 0 <= p < N
          ensures PairReadings(raw, k, p, tx, dist) == PairReadings(raw, k + 1, p, tx, dist)
        {
        }
      } else if 3 + 2 * k < |raw| {
        ReadPairsRowSlot(raw, k, row, tx, dist);
      }
    }
  }

  /** The step of ReadPairsRow for a slot with a non-zero peer. */
  lemma {:induction false} ReadPairsRowSlot(raw: seq<byte>, k: nat, row: seq<seq<real>>, tx: int, dist: DistanceModel)
    requires k < PairSlots && |row| == N
    requires 3 + 2 * k < |raw| && Signed(raw[2 + 2 * k]) != 0
    ensures var r := ReadPairs(raw, k, row, tx, dist);
      r.Done? ==> forall p :: 0 <= p < N ==> r.state[p] == row[p] + PairReadings(raw, k, p, tx, dist)
    decreases PairSlots - k, 0
  {
    var d := dist(Signed(raw[3 + 2 * k]), tx);
    var q := PyIndex(Signed(raw[2 + 2 * k]), N);
    var row' := if d > MinPairDistance then AppendToList(row, q, d) else row;
    assert ReadPairs(raw, k, row, tx, dist) == ReadPairs(raw, k + 1, row', tx, dist);
    ReadPairsRow(raw, k + 1, row', tx, dist);
    var r := ReadPairs(raw, k + 1, row', tx, dist);
    if r.Done? {
      forall p | 0 <= p < N
        ensures r.state[p] == row[p] + PairReadings(raw, k, p, tx, dist)
      {
        var here := if q == p && d > MinPairDistance then [d] else [];
        var rest := PairReadings(raw, k + 1, p, tx, dist);
        assert row'[p] == row[p] + here;
        assert PairReadings(raw, k, p, tx, dist) == here + rest;
        AppendAssoc(row[p], here, rest);
      }
    }
  }

  lemma AppendAssoc(a: seq<real>, b: seq<real>, c: seq<real>)
    ensures (a + b) + c == a + (b + c)
  {
  }

  /** `raw = advertisement_data.service_data.get(TARGET_SERVICE_UUID)`. */
  function Payload(ad: Advertisement): seq<byte>
    requires TargetServiceUuid in ad.serviceData
  {
    ad.serviceData[TargetServiceUuid]
  }

  /** The rest of detection_callback for a frame past the filter and the
      length guard: store the header, run the pair loop, append the anchor
      reading and refill the matrix. */
  function ProcessFrame(raw: seq<byte>, rssi: int, st: ScannerState, dist: DistanceModel)
    : (r: Outcome<ScannerState>)
    requires Valid(st) && |raw| >= 2
    ensures Valid(r.state)
    // Header: tx power stored under the unsigned value of byte 1, the signed
    // value recorded as seen.
    ensures r.state.txPower == st.txPower[raw[1] := Signed(raw[0])]
    ensures r.state.seen == st.seen + {Signed(raw[1])}
    // The pair loop raises struct.error exactly on frames shorter than 21
    // bytes and on 21-byte frames whose last peer byte is non-zero; the
    // matrix is then not refilled.
    ensures r.Failed? <==> |raw| < 21 || (|raw| == 21 && raw[20] != 0)
    ensures r.Failed? ==> r.state.matrix == st.matrix
    ensures Symmetric(st.matrix, N) ==> Symmetric(r.state.matrix, N)
  {
    var tx := Signed(raw[0]);
    var id := Signed(raw[1]);
    SignedSubscriptIsUnsigned(raw[1]);
    PeerZeroOnly(raw, 0, dist);
    var s := PyIndex(id, N);
    var st1 := st.(txPower := st.txPower[s := tx], seen := st.seen + {id});
    match ReadPairs(raw, 0, st1.vectors[s], st1.txPower[s], dist)
    case Failed(row) => Failed(st1.(vectors := st1.vectors[s := row]))
    case Done(row) =>
      var v' := AppendReading(st1.vectors[s := row], Anchor, s, dist(rssi, tx));
      Done(st1.(vectors := v', matrix := Filled(v', st1.matrix, DefaultTolerance)))
  }

  /** Readings are only appended by one processed frame, and only to the
      sender's row and to the anchor's list for the sender. */
  lemma ProcessFrameAppends(raw: seq<byte>, rssi: int, st: ScannerState, dist: DistanceModel)
    requires Valid(st) && |raw| >= 2
    ensures var r := ProcessFrame(raw, rssi, st, dist);
      forall i, j :: 0 <= i < N && 0 <= j < N ==> st.vectors[i][j] <= r.state.vectors[i][j]
    ensures var r := ProcessFrame(raw, rssi, st, dist);
      forall i, j :: 0 <= i < N && 0 <= j < N && i != raw[1] && !(i == Anchor && j == raw[1]) ==>
        r.state.vectors[i][j] == st.vectors[i][j]
  {
    SignedSubscriptIsUnsigned(raw[1]);
    var tx := Signed(raw[0]);
    var s := raw[1];
    var rp := ReadPairs(raw, 0, st.vectors[s], tx, dist);
    var v := st.vectors[s := rp.state];
    var r := ProcessFrame(raw, rssi, st, dist);
    ReadPairsAppends(raw, 0, st.vectors[s], tx, dist);
    RowUpdateAppends(st.vectors, s, rp.state);
    if rp.Done? {
      var v' := AppendReading(v, Anchor, s, dist(rssi, tx));
      assert r.state.vectors == v';
      forall i, j | 0 <= i < N && 0 <= j < N ensures st.vectors[i][j] <= v'[i][j] {
        assert v[i][j] <= v'[i][j];
      }
    } else {
      assert r.state.vectors == v;
    }
  }

  /** Replacing the sender's row by one whose lists extend the old ones
      only appends, and only within that row. */
  lemma RowUpdateAppends(v: Readings, s: nat, row: seq<seq<real>>)
    requires IsSquare(v, N) && s < N && |row| == N
    requires forall p :: 0 <= p < N ==> v[s][p] <= row[p]
    ensures IsSquare(v[s := row], N)
    ensures forall i, j :: 0 <= i < N && 0 <= j < N ==> v[i][j] <= v[s := row][i][j]
    ensures forall i, j :: 0 <= i < N && 0 <= j < N && i != s ==> v[s := row][i][j] == v[i][j]
  {
  }

  /** A completed frame adds exactly one anchor reading and the kept pair
      readings in slot order, and refills from the updated readings. */
  lemma ProcessFrameReadings(raw: seq<byte>, rssi: int, st: ScannerState, dist: DistanceModel)
    requires Valid(st) && |raw| >= 2
    ensures var r := ProcessFrame(raw, rssi, st, dist);
      r.Done? ==> r.state.vectors[Anchor][raw[1]] == st.vectors[Anchor][raw[1]] + [dist(rssi, Signed(raw[0]))]
    ensures var r := ProcessFrame(raw, rssi, st, dist);
      r.Done? ==> forall p :: 0 < p < N ==>
        r.state.vectors[raw[1]][p] == st.vectors[raw[1]][p] + PairReadings(raw, 0, p, Signed(raw[0]), dist)
    // No pair slot reaches column 0, so a sender other than the anchor
    // keeps its list for the anchor.
    ensures var r := ProcessFrame(raw, rssi, st, dist);
      r.Done? && raw[1] != Anchor ==> r.state.vectors[raw[1]][Anchor] == st.vectors[raw[1]][Anchor]
    ensures var r := ProcessFrame(raw, rssi, st, dist);
      r.Done? ==> r.state.matrix == Filled(r.state.vectors, st.matrix, DefaultTolerance)
  {
    SignedSubscriptIsUnsigned(raw[1]);
    PeerZeroOnly(raw, 0, dist);
    var tx := Signed(raw[0]);
    var s := raw[1];
    var rp := ReadPairs(raw, 0, st.vectors[s], tx, dist);
    ReadPairsRow(raw, 0, st.vectors[s], tx, dist);
    var r := ProcessFrame(raw, rssi, st, dist);
    if rp.Done? {
      var v := st.vectors[s := rp.state];
      var v' := AppendReading(v, Anchor, s, dist(rssi, tx));
      var st1 := st.(txPower := st.txPower[s := tx], seen := st.seen + {Signed(raw[1])});
      assert st1.txPower[s] == tx;
      assert r == Done(st1.(vectors := v', matrix := Filled(v', st1.matrix, DefaultTolerance)));
      // No pair slot reaches column 0, so the anchor's list for the
      // sender held its old readings before the anchor reading went in.
      assert rp.state[Anchor] == st.vectors[s][Anchor] + [];
      assert v[Anchor][s] == st.vectors[Anchor][s];
    }
  }

  /** detection_callback as written. */
  function DetectionCallback(name: Option<string>, ad: Advertisement, st: ScannerState, dist: DistanceModel)
    : (r: Outcome<ScannerState>)
    requires Valid(st)
    ensures Valid(r.state)
    // A frame the filter rejects still refills the matrix, and changes nothing else.
    ensures !FrameAccepted(name, ad) ==>
      && r.Done?
      && r.state.txPower == st.txPower && r.state.seen == st.seen && r.state.vectors == st.vectors
      && r.state.matrix == Filled(st.vectors, st.matrix, DefaultTolerance)
    // Missing or short service data: return early, nothing changes, no refill.
    ensures FrameAccepted(name, ad) && !HasPayload(ad, TargetServiceUuid, MinFrameLength) ==> r == Done(st)
    ensures forall i, j :: 0 <= i < N && 0 <= j < N ==> st.vectors[i][j] <= r.state.vectors[i][j]
    ensures Symmetric(st.matrix, N) ==> Symmetric(r.state.matrix, N)
    // The length guard admits frames the pair loop cannot read.
    ensures r.Failed? <==>
      && FrameAccepted(name, ad) && HasPayload(ad, TargetServiceUuid, MinFrameLength)
      && (|Payload(ad)| < 21 || (|Payload(ad)| == 21 && Payload(ad)[20] != 0))
    // A frame past the filter and the guard is processed in full, so the
    // header and readings facts of ProcessFrame apply to it.
    ensures FrameAccepted(name, ad) && HasPayload(ad, TargetServiceUuid, MinFrameLength) ==>
      r == ProcessFrame(Payload(ad), ad.rssi, st, dist)
  {
    if !FrameAccepted(name, ad) then
      Done(st.(matrix := Filled(st.vectors, st.matrix, DefaultTolerance)))
    else if !HasPayload(ad, TargetServiceUuid, MinFrameLength) then
      Done(st)
    else
      ProcessFrameAppends(Payload(ad), ad.rssi, st, dist);
      ProcessFrame(Payload(ad), ad.rssi, st, dist)
  }

  /** No pair slot adds to list 0: a peer naming slot 0 is peer 0, which
      is skipped. */
  lemma {:induction false} PeerZeroOnly(raw: seq<byte>, k: nat, dist: DistanceModel)
    requires k <= PairSlots
    ensures forall tx :: PairReadings(raw, k, 0, tx, dist) == []
    decreases PairSlots - k
  {
    if k < PairSlots {
      PeerZeroOnly(raw, k + 1, dist);
    }
  }

  /** Refilling from unchanged readings changes nothing, so the refill a
      rejected frame triggers is harmless once the matrix is up to date. */
  lemma RefillIsIdempotent(v: Readings, mat: seq<seq<real>>, tol: real)
    requires IsSquare(v, N) && IsSquare(mat, N)
    ensures Filled(v, Filled(v, mat, tol), tol) == Filled(v, mat, tol)
  {
    var f := Filled(v, mat, tol);
    var g := Filled(v, f, tol);
    forall i | 0 <= i < N ensures g[i] == f[i] {
      assert forall j :: 0 <= j < N ==> g[i][j] == f[i][j];
    }
  }

  // ------------------------------------------------- the short-frame guard

  /** An 8-byte frame passes the length guard, stores its header, and then
      makes the pair loop raise struct.error at slot 3: tx power and seen
      set change while the matrix is not refilled. */
  lemma ShortFrameFails(st: ScannerState, dist: DistanceModel)
    requires Valid(st)
    ensures var ad := Advertisement(Some([TargetServiceUuid]), map[TargetServiceUuid := [197, 5, 3, 200, 0, 0, 0, 0]], -60);
      var r := DetectionCallback(None, ad, st, dist);
      && r.Failed?
      && r.state.txPower[5] == -59 && 5 in r.state.seen
      && r.state.matrix == st.matrix
  {
    var ad := Advertisement(Some([TargetServiceUuid]), map[TargetServiceUuid := [197, 5, 3, 200, 0, 0, 0, 0]], -60);
    assert IsTargetUuid(UuidsOrEmpty(ad)[0]);
    assert FrameAccepted(None, ad);
    assert Payload(ad) == [197, 5, 3, 200, 0, 0, 0, 0];
  }

  /** detection_callback with the length guard the pair loop needs
      (2 + 2 * 10 bytes): it never raises, leaves the state alone on every
      shorter frame, and agrees with the callback as written on every
      frame long enough for the loop. */
  function DetectionCallbackGuarded(name: Option<string>, ad: Advertisement, st: ScannerState, dist: DistanceModel)
    : (r: Outcome<ScannerState>)
    requires Valid(st)
    ensures r.Done?
    ensures FrameAccepted(name, ad) && !HasPayload(ad, TargetServiceUuid, FullFrameLength) ==> r == Done(st)
    ensures !FrameAccepted(name, ad) || HasPayload(ad, TargetServiceUuid, FullFrameLength) ==>
      r == DetectionCallback(name, ad, st, dist)
  {
    if !FrameAccepted(name, ad) then
      Done(st.(matrix := Filled(st.vectors, st.matrix, DefaultTolerance)))
    else if !HasPayload(ad, TargetServiceUuid, FullFrameLength) then
      Done(st)
    else
      ProcessFrame(Payload(ad), ad.rssi, st, dist)
  }

  // ------------------------------------------------------------ scanning

  /** The state after the scanner has delivered `frames` in order; a
      callback that raised leaves its partial writes behind. */
  function Run(st: ScannerState, frames: seq<Sighting>, dist: DistanceModel): (r: ScannerState)
    requires Valid(st)
    ensures Valid(r)
    decreases |frames|
  {
    if |frames| == 0 then st
    else Run(DetectionCallback(frames[0].name, frames[0].ad, st, dist).state, frames[1..], dist)
  }

  lemma {:induction false} RunKeepsSymmetry(st: ScannerState, frames: seq<Sighting>, dist: DistanceModel)
    requires Valid(st) && Symmetric(st.matrix, N)
    ensures Symmetric(Run(st, frames, dist).matrix, N)
    decreases |frames|
  {
    if |frames| > 0 {
      var next := DetectionCallback(frames[0].name, frames[0].ad, st, dist).state;
      RunKeepsSymmetry(next, frames[1..], dist);
    }
  }

  lemma {:induction false} RunOnlyAppends(st: ScannerState, frames: seq<Sighting>, dist: DistanceModel)
    requires Valid(st)
    ensures var r := Run(st, frames, dist);
      forall i, j :: 0 <= i < N && 0 <= j < N ==> st.vectors[i][j] <= r.vectors[i][j]
    decreases |frames|
  {
    if |frames| > 0 {
      var next := DetectionCallback(frames[0].name, frames[0].ad, st, dist).state;
      RunOnlyAppends(next, frames[1..], dist);
    }
  }

  /** Starting from the all-zero matrix, every scan leaves a symmetric
      distance matrix. */
  lemma ScanFromInitIsSymmetric(frames: seq<Sighting>, dist: DistanceModel)
    ensures Symmetric(Run(Init(), frames, dist).matrix, N)
  {
    RunKeepsSymmetry(Init(), frames, dist);
  }
}
