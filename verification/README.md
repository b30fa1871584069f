# Indoor scanner receivers in Dafny

The indoor scanner lets phones show they share a room. The Python receivers
in `bleak_scanner/` listen for BLE advertisements. `scanner.py` and
`bleak_scanner.py` accept one when it advertises the service UUID
`0000feed-0000-1000-8000-00805f9b34fb`, or when the device name starts with
`IndoorScanner`. `scanner.py` decodes the
service data as a frame `[tx_power, sender_id, (peer_id, rssi) x 10]`, every
byte read as signed; `bleak_scanner.py` reads the same layout with three pair
slots. Both turn frames into distance estimates between nodes, where node 0
is the receiver itself (the anchor). `distance.py` has no such filter: it
uses every discovered device whose service data under the lower-cased UUID
has at least 2 bytes and decodes to a non-empty id. It reads byte 0 as the
tx power and decodes the rest as UTF-8 text. The phone app in the repository
sends neither layout: its service data is the UTF-8 text of the student id,
and it advertises under the phone's own device name. This project models the
three receivers and proves properties of them:

- `scanner.py` (module `Scanner`). Its detection callback filters frames,
  decodes the header and ten pair slots. It skips slots whose peer is 0,
  appends each pair reading over 0.5 to the list for its ordered pair, and
  appends the anchor reading to the anchor's list for the sender. `fill_distance_matrix` then reduces each unordered
  pair's readings to one value and writes it to both cells.
  `find_best_distances` (module `Clustering`, with `Sorting`) does the
  reduction: it sorts the readings, splits them into single-linkage clusters
  with a gap tolerance, and takes the mean of the first longest cluster.
- `bleak_scanner.py` (module `BleakScanner`). This is the earlier 30-node
  receiver. It reads three pair slots and writes distances straight into both
  cells of each pair, so the latest frame wins.
- `distance.py` (module `Distance`). This is the header-only decoder and the
  acceptance test its `main` applies.

Shared pieces:

- `Bytes` holds signed bytes, Python's negative list subscripts and
  `int.from_bytes`.
- `Advert` holds the advertisement data, the frame filter the two scanners
  share, and the callback outcome.
- `Grid` holds square matrices and symmetric pair writes.

Modelling choices:

- `rssi_to_distance` is a parameter `dist: (int, int) -> real`, applied to
  (rssi, tx power). The utf-8 decoder is a parameter too.
- Python floats are Dafny reals.
- A Python exception inside a callback is the outcome `Failed(state)`. The
  state is what the callback had written before it raised: `struct.error`
  when a byte is missing, `IndexError` when an id is out of range, and
  `TypeError` when there is no payload. The scan is assumed to go on with
  that state (`Run`).

The model follows the code in these places:

- In `scanner.py` the call to `fill_distance_matrix` sits outside the filter's
  `if`. So a rejected frame still refills the matrix. A frame with missing or
  short service data returns early and does not refill it.
- A signed sender id indexes the 256-entry lists at its unsigned value. The
  seen set records the signed value.
- In `bleak_scanner.py` the peer id -30 names list slot 0, the anchor.
- The two frame layouts are not reconciled: each receiver is modelled on
  its own terms.
- None of these files has a ranked peer table, an upsert/clear API or an
  advertise/scan session state machine, so none is modelled.

## Model

| member | source | states |
|---|---|---|
| `Advert.AnyUuidMatches` | bleak_scanner/scanner.py:28 | true exactly when some advertised UUID equals the target UUID after lower-casing both |
| `Advert.FrameAccepted` | bleak_scanner/scanner.py:27-31 | a frame is processed exactly when some advertised UUID matches the target ignoring case (a missing UUID list counts as empty), or the device name starts with `IndoorScanner`; bleak_scanner.py runs the same test on its lines 28-32 |
| `Bytes.Signed` | bleak_scanner/scanner.py:36-37 | `struct.unpack("b")` gives the two's-complement value: it lies in -128..127 and is congruent to the byte modulo 256 |
| `Bytes.PyIndex` | bleak_scanner/scanner.py:38 | a legal Python subscript `i` of a length-`n` list names a slot below `n`: `i` itself, or `i + n` when `i` is negative |
| `Bytes.SignedSubscriptIsUnsigned` | bleak_scanner/scanner.py:36-38 | every signed byte is a legal subscript of a 256-entry list, and it names the slot of the byte's unsigned value |
| `Bytes.FromBytesSigned` | bleak_scanner/distance.py:16 | `int.from_bytes(..., 'big', signed=True)` lies in the signed range of its byte count and is congruent to the unsigned big-endian value modulo 256 to the byte count, so it is the two's-complement reading; for one byte it equals the signed reading of that byte |
| `Sorting.Sort` | bleak_scanner/scanner.py:69 | the result is sorted and is a permutation (same multiset) of the readings |
| `Sorting.SortedPermutationUnique` | bleak_scanner/scanner.py:69 | two sorted permutations of the same readings are equal, so the sort algorithm used does not matter |
| `Clustering.Clusters` | bleak_scanner/scanner.py:71-79 | the clusters concatenate to the sorted input, none is empty, and the last one ends with the last reading |
| `Clustering.ClustersSplitAtGaps` | bleak_scanner/scanner.py:73-78 | within a cluster, neighbours are at most `tolerance` apart; each new cluster starts more than `tolerance` after the previous reading |
| `Clustering.ClusteringUnique` | bleak_scanner/scanner.py:71-79 | any split into clusters that meets these gap rules is exactly the one the single pass builds |
| `Clustering.FirstLongest` | bleak_scanner/scanner.py:81 | `max(clusters, key=len)` picks a cluster of maximal length, and no earlier cluster is as long |
| `Clustering.MeanWithinReadings` | bleak_scanner/scanner.py:82 | the mean of a cluster lies between its smallest and its largest reading |
| `Clustering.FindBestDistance` | bleak_scanner/scanner.py:67-83 | no readings give 0; otherwise the result lies between the smallest and the largest reading |
| `Clustering.BestDistanceOrderFree` | bleak_scanner/scanner.py:68-69 | the reduction depends only on the multiset of readings, not on their order |
| `Clustering.BestDistanceDirectionFree` | bleak_scanner/scanner.py:64 | joining the (m, n) and (n, m) readings in either order gives the same value |
| `Scanner.Init` | bleak_scanner/scanner.py:12-21 | the initial state has the right shapes, zero tx powers, no readings, nobody seen, and an all-zero, symmetric matrix |
| `Scanner.Filled` | bleak_scanner/scanner.py:58-65 | for each m < n with readings in either direction, both cells hold the reduction of the joined readings; other cells and the diagonal keep their values; a symmetric matrix stays symmetric |
| `Scanner.FillDistanceMatrix` | bleak_scanner/scanner.py:61-65 | the nested loop, which writes `[m][n]` and then `[n][m]`, produces exactly that matrix |
| `Scanner.FillRow` | bleak_scanner/scanner.py:62-65 | the inner loop for row m fills every pair (m, n) with n > m and leaves later rows' pairs alone |
| `Scanner.FillPair` | bleak_scanner/scanner.py:63-65 | a pair with readings in either direction gets the reduction in `[m][n]` and the same value copied to `[n][m]`; a pair without readings is left alone |
| `Scanner.RefillIsIdempotent` | bleak_scanner/scanner.py:56-65 | a second fill from the same readings changes nothing |
| `Scanner.ReadPairs` | bleak_scanner/scanner.py:42-50 | the pair loop works on the sender's row only, and raises exactly on frames shorter than 21 bytes, or 21 bytes with a non-zero last peer byte |
| `Scanner.ReadPairsAppends` | bleak_scanner/scanner.py:42-50 | whether the pair loop completes or raises, every list of the sender's row only grows by appending |
| `Scanner.ReadPairsRow` | bleak_scanner/scanner.py:42-50 | a pair loop that completes adds to each list of the sender's row exactly the readings whose slot names that peer and whose distance exceeds 0.5, in slot order |
| `Scanner.PeerZeroOnly` | bleak_scanner/scanner.py:43-45 | no pair slot adds a reading to column 0: a peer that would name slot 0 is peer 0, which is skipped |
| `Scanner.ProcessFrame` | bleak_scanner/scanner.py:36-56 | tx power goes to the unsigned slot of byte 1 and the signed id to the seen set; the frame raises exactly as the pair loop does, and then the matrix is not refilled; symmetry is kept |
| `Scanner.ProcessFrameAppends` | bleak_scanner/scanner.py:42-54 | readings are only appended, and only to the sender's row and the anchor's list for the sender |
| `Scanner.ProcessFrameReadings` | bleak_scanner/scanner.py:42-56 | a completed frame adds exactly one anchor reading and its kept pair readings; a sender other than the anchor keeps its own list for peer 0 unchanged; the matrix is then refilled from the new readings with tolerance 0.1 |
| `Scanner.DetectionCallback` | bleak_scanner/scanner.py:26-56 | a rejected frame changes only the matrix, by a refill; missing or short (< 8 bytes) service data changes nothing; readings are only appended; symmetry is kept; the callback raises exactly on accepted frames of 8-20 bytes, or 21 bytes with a non-zero last peer byte; every accepted frame that passes the guard is handled by `ProcessFrame`, so its header and readings facts apply |
| `Scanner.ShortFrameFails` | bleak_scanner/scanner.py:33-46 | an accepted 8-byte frame passes the guard, stores tx power and id, raises at pair slot 3, and leaves the matrix unrefilled |
| `Scanner.DetectionCallbackGuarded` | bleak_scanner/scanner.py:32-56 | with a 22-byte guard the callback never raises, ignores every shorter frame, and matches the callback as written on all other frames |
| `Scanner.RunKeepsSymmetry` | bleak_scanner/scanner.py:56-65 | any sequence of callbacks, including ones that raise, keeps a symmetric matrix symmetric |
| `Scanner.RunOnlyAppends` | bleak_scanner/scanner.py:49-54 | over any sequence of callbacks, every reading list only grows by appending |
| `Scanner.ScanFromInitIsSymmetric` | bleak_scanner/scanner.py:16 | from the all-zero matrix, every scan leaves a symmetric matrix |
| `Grid.SetPair` | bleak_scanner/bleak_scanner.py:44-45 | writing one value to `[i][j]` and then `[j][i]` sets both cells, leaves all others alone, and keeps symmetry |
| `BleakScanner.Init` | bleak_scanner/bleak_scanner.py:13-22 | 30 tx-power slots all zero, an empty seen set, and a symmetric 30 x 30 matrix of zeros |
| `BleakScanner.WritePairs` | bleak_scanner/bleak_scanner.py:38-45 | the 3-slot loop keeps symmetry and writes only the sender's row and column; the last slot naming a peer decides both cells of that pair; pairs no slot names keep their cells; a full frame with legal peer ids never raises |
| `BleakScanner.DetectionCallback` | bleak_scanner/bleak_scanner.py:27-56 | a rejected frame changes nothing; no payload, fewer than 2 bytes or a sender id outside -30..29 raise before any write; a full frame with legal ids completes; tx power is stored, but the id is added to the seen set only on completion; only the sender's row and column change; the anchor cells get the received-rssi distance; cells are assigned with latest-wins; symmetry is kept even when the callback raises |
| `BleakScanner.RunKeepsSymmetry` | bleak_scanner/bleak_scanner.py:44-56 | any sequence of callbacks keeps a symmetric matrix symmetric |
| `Distance.LookupKeyIsTargetUuid` | bleak_scanner/distance.py:14 | the lower-cased lookup key is the constant itself, the same UUID scanner.py uses |
| `Distance.ParsePayload` | bleak_scanner/distance.py:13-21 | a header is returned exactly when the service data under the lower-cased UUID has at least 2 bytes; tx power is b if b < 128 and b - 256 otherwise; the id is the decoded text of bytes 1.. |
| `Distance.StudentIdIgnoresTxByte` | bleak_scanner/distance.py:17 | two payloads that agree from byte 1 on yield the same student id |
| `Distance.UsableHeader` | bleak_scanner/distance.py:28-34 | a reading is used exactly when advertisement data exists, the payload has at least 2 bytes and the decoded id is non-empty; any tx power value, 0 included, passes |

## Left out

- `rssi_to_distance` / `estimate_distance`: float exponentiation and rounding,
  kept as the uninterpreted parameter `dist`.
- The `round(..., 2)` in `find_best_distances` is dropped. Readings are
  reals, so there is no float rounding, NaN or infinity.
- `str.lower()` is modelled on ASCII letters only. The UUID comparisons need
  no more than that.
- The callback in `scanner.py` always reduces with the default tolerance
  0.1 (`Clustering.DefaultTolerance`), as `fill_distance_matrix()` is called
  without an argument.
- Tolerance ties: the model compares gaps as exact reals, Python as binary64
  floats. `rssi_to_distance` rounds to hundredths, so gaps of exactly 0.1 are
  common, and `abs(a - b) <= tolerance` then depends on rounding error. For
  the readings [0.7, 0.8], Python computes 0.8 - 0.7 as slightly more than
  0.1, builds two clusters and returns 0.7; the model joins them and returns
  0.75.
- `bytes.decode("utf-8", errors="ignore")` is the uninterpreted parameter
  `decode`.
- BLE scanning and I/O: `BleakScanner`, the asyncio loops, `scan_devices`,
  `stream_scan`, `np.save`, every `print`, and the device loop of
  `distance.py`'s `main` beyond its acceptance test.
- The script part of bleak_scanner.py after the callback (MDS, graph,
  plotting), `positioning.py`, `streamlit_app.py` and the Android app:
  numerical libraries, UI and platform code.
- The `if not matrix_vectors: return` of `fill_distance_matrix` is not
  modelled: the list always holds 256 rows, so that branch is never taken.
- bleak_scanner.py starts its matrix with integer zeros. The model starts
  with 0.0.
- `Scanner.ProcessFrameAppends`: for a frame that raises, it states only that
  readings were appended within the sender's row, not which slots got in
  before the error.
- `BleakScanner.WritePairs`: for a loop that raises, it states only symmetry
  and the row/column bound, not which slots were written before the error.

## Findings

| source | as written | input that shows it | evidently intended | confidence | as-written member | corrected member |
|---|---|---|---|---|---|---|
| bleak_scanner/scanner.py:33 | the early return fires only for service data shorter than 8 bytes, but the 10-slot loop reads bytes up to offset 21 | an accepted frame whose service data is the 8 bytes `[197, 5, 3, 200, 0, 0, 0, 0]`: tx power -59 is stored at slot 5 and 5 is marked seen, slot 3 raises `struct.error`, and the matrix is not refilled | reject frames shorter than 2 + 2 x 10 = 22 bytes before touching any state | medium (8 is the right bound for the earlier 3-slot layout); not executed | `Scanner.ShortFrameFails` | `Scanner.DetectionCallbackGuarded` |

`Scanner.Run` and its lemmas use the callback as written, so the symmetry and
append-only invariants hold for the code as shipped. `Scanner.DetectionCallbackGuarded`
agrees with the as-written callback on every frame the loop can read.
