/** The chunk plan returned by the server's `download_chunked` endpoint: the
    requested file ids cut, in order, into consecutive chunks of at most
    `chunk_size` ids, each entry labelled with a display name. */
module Chunking {

  /** One entry of a chunk's `files` list. */
  datatype ChunkFile = ChunkFile(fileId: string, originalFilename: string, numberInChunk: nat)

  /** One element of the reply's `chunks` list. */
  datatype Chunk = Chunk(chunkNumber: nat, fileIds: seq<string>, files: seq<ChunkFile>, fileCount: nat)

  /** The whole reply of `download_chunked`. */
  datatype ChunkPlan = ChunkPlan(totalFiles: nat, chunkSize: nat, totalChunks: nat, chunks: seq<Chunk>)

  function Min(a: int, b: int): int {
    if a <= b then a else b
  }

  /** The number of chunks, computed as the source does by ceiling division
      `(total_files + chunk_size - 1) // chunk_size`; the result is the least
      count whose chunks hold all `n` files. */
  function ChunkCount(n: nat, k: nat): (t: nat)
    requires k >= 1
    ensures t * k >= n
    ensures t > 0 ==> (t - 1) * k < n
  {
    var t := (n + k - 1) / k;
    var r := (n + k - 1) % k;
    assert t * k + r == n + k - 1 && 0 <= r < k;
    assert t > 0 ==> (t - 1) * k == t * k - k;
    t
  }

  /** Every chunk index below the count starts inside the list. */
  lemma ChunkStartInRange(n: nat, k: nat, i: nat)
    requires k >= 1 && i < ChunkCount(n, k)
    ensures i * k < n
  {
    var t := ChunkCount(n, k);
    MulMonotone(i, t - 1, k);
  }

  lemma {:induction false} MulMonotone(a: nat, b: nat, k: nat)
    requires a <= b
    ensures a * k <= b * k
  {
    if a < b {
      MulMonotone(a, b - 1, k);
      assert b * k == (b - 1) * k + k;
    }
  }

  /** The display name of an id: its entry in the names dictionary, or
      `unknown-` followed by the id when it has none. */
  function EntryName(info: map<string, string>, id: string): string {
    if id in info then info[id] else "unknown-" + id
  }

  /** Chunk number `i + 1`: the ids from `i * k` up to `min(i * k + k, n)`,
      each with its name and its 1-based place in the chunk. */
  function ChunkAt(ids: seq<string>, k: nat, info: map<string, string>, i: nat): Chunk
    requires k >= 1 && i < ChunkCount(|ids|, k)
  {
    ChunkStartInRange(|ids|, k, i);
    var part := ids[i * k .. Min(i * k + k, |ids|)];
    Chunk(i + 1, part,
          seq(|part|, j requires 0 <= j < |part| => ChunkFile(part[j], EntryName(info, part[j]), j + 1)),
          |part|)
  }

  /** The reply of `download_chunked` for an accepted chunk size. */
  function Plan(ids: seq<string>, k: nat, info: map<string, string>): ChunkPlan
    requires k >= 1
  {
    var t := ChunkCount(|ids|, k);
    ChunkPlan(|ids|, k, t, seq(t, i requires 0 <= i < t => ChunkAt(ids, k, info, i)))
  }

  /** The chunks' id lists joined in chunk order. */
  function JoinIds(cs: seq<Chunk>): seq<string> {
    if cs == [] then [] else JoinIds(cs[..|cs| - 1]) + cs[|cs| - 1].fileIds
  }

  /** `total_chunks` is the ceiling of `total_files / chunk_size`: the chunks
      can hold every file, and one chunk fewer could not. */
  lemma PlanChunkCount(ids: seq<string>, k: nat, info: map<string, string>)
    requires k >= 1
    ensures var p := Plan(ids, k, info);
      && p.totalFiles == |ids| && p.chunkSize == k
      && p.totalChunks == |p.chunks|
      && p.totalChunks * k >= |ids|
      && (p.totalChunks > 0 ==> (p.totalChunks - 1) * k < |ids|)
      && (p.totalChunks == 0 <==> ids == [])
  {
    var t := ChunkCount(|ids|, k);
    if ids != [] {
      assert t * k >= 1;
    }
  }

  /** Every chunk holds between 1 and `chunk_size` ids (exactly `chunk_size`
      except possibly the last), `file_count` is its length, `chunk_number`
      is its 1-based index, and its `files` entries list its ids in order
      with `number_in_chunk` running from 1 to `file_count`. */
  lemma PlanChunkShape(ids: seq<string>, k: nat, info: map<string, string>, i: nat)
    requires k >= 1 && i < |Plan(ids, k, info).chunks|
    ensures var c := Plan(ids, k, info).chunks[i];
      && 1 <= c.fileCount <= k
      && c.fileCount == |c.fileIds| == |c.files|
      && (i + 1 < |Plan(ids, k, info).chunks| ==> c.fileCount == k)
      && c.chunkNumber == i + 1
      && forall j :: 0 <= j < c.fileCount ==>
           c.files[j].numberInChunk == j + 1 && c.files[j].fileId == c.fileIds[j]
           && c.files[j].originalFilename == EntryName(info, c.fileIds[j])
  {
    ChunkStartInRange(|ids|, k, i);
    if i + 1 < ChunkCount(|ids|, k) {
      ChunkStartInRange(|ids|, k, i + 1);
      assert (i + 1) * k == i * k + k;
    }
  }

  /** Chunk `i` holds the ids from `i * k` up to `min(i * k + k, n)`. */
  lemma ChunkIds(ids: seq<string>, k: nat, info: map<string, string>, i: nat)
    requires k >= 1 && i < ChunkCount(|ids|, k)
    ensures i * k < |ids|
    ensures Plan(ids, k, info).chunks[i].fileIds == ids[i * k .. Min(i * k + k, |ids|)]
  {
    ChunkStartInRange(|ids|, k, i);
  }

  /** `cs` cuts `ids` into consecutive slices of `k`: slice `i` is the ids
      from `i * k` up to `min(i * k + k, n)`. */
  ghost predicate CutsOf(cs: seq<Chunk>, ids: seq<string>, k: nat) {
    forall i :: 0 <= i < |cs| ==>
      i * k < |ids| && i * k <= Min(i * k + k, |ids|) && cs[i].fileIds == ids[i * k .. Min(i * k + k, |ids|)]
  }

  /** Joining the first `m` slices gives the first `min(m * k, n)` ids. */
  lemma {:induction false} JoinPrefix(cs: seq<Chunk>, ids: seq<string>, k: nat, m: nat)
    requires k >= 1 && CutsOf(cs, ids, k) && m <= |cs|
    ensures JoinIds(cs[..m]) == ids[..Min(m * k, |ids|)]
  {
    if m > 0 {
      var lo := (m - 1) * k;
      var hi := Min(m * k, |ids|);
      JoinPrefix(cs, ids, k, m - 1);
      assert m * k == lo + k;
      assert cs[m - 1].fileIds == ids[lo..hi];
      assert cs[..m][..m - 1] == cs[..m - 1];
      assert JoinIds(cs[..m]) == JoinIds(cs[..m - 1]) + cs[m - 1].fileIds;
      assert ids[..hi] == ids[..lo] + ids[lo..hi];
    }
  }

  /** Joining every chunk's `file_ids` in chunk order gives back the request's
      `file_ids` exactly: each id once, in its original order. */
  lemma PlanCoversInOrder(ids: seq<string>, k: nat, info: map<string, string>)
    requires k >= 1
    ensures JoinIds(Plan(ids, k, info).chunks) == ids
  {
    var cs := Plan(ids, k, info).chunks;
    var t := ChunkCount(|ids|, k);
    forall i | 0 <= i < |cs|
      ensures i * k < |ids| && i * k <= Min(i * k + k, |ids|) && cs[i].fileIds == ids[i * k .. Min(i * k + k, |ids|)]
    {
      ChunkIds(ids, k, info, i);
    }
    JoinPrefix(cs, ids, k, t);
    assert cs[..t] == cs;
  }

  function LowerAscii(c: char): char {
    if 'A' <= c <= 'Z' then (c as int + 32) as char else c
  }

  /** Whether the name ends in `.pdf`, compared without regard to letter
      case. */
  predicate HasPdfSuffix(name: string) {
    |name| >= 4
    && LowerAscii(name[|name| - 4]) == '.'
    && LowerAscii(name[|name| - 3]) == 'p'
    && LowerAscii(name[|name| - 2]) == 'd'
    && LowerAscii(name[|name| - 1]) == 'f'
  }

  /** Removes a trailing `.pdf`, matched in any letter case, by dropping
      exactly four characters; any other name is kept whole. */
  function StripPdf(name: string): (r: string)
    ensures |name| - |r| == if HasPdfSuffix(name) then 4 else 0
    ensures name == r + name[|r|..]
  {
    if HasPdfSuffix(name) then name[..|name| - 4] else name
  }
}
