/** Upload planning: the size threshold between a single PUT and an upload
    session, and the byte ranges `upload_chunked` sends. */
module Upload {
  import opened Bytes
  import opened Decimal
  import opened Text

  /** Payloads up to this many bytes go through `upload_small`. */
  const SmallUploadLimit: nat := 3_900_000

  /** The default `chunk` of `upload_chunked` (5 MiB). */
  const DefaultChunk: nat := 5 * 1024 * 1024

  datatype UploadKind = Small | Chunked

  /** The branch in `main`: `len(resized_bytes) <= 3_900_000`. */
  function ChooseUpload(size: nat): (k: UploadKind)
    ensures k == Small <==> size <= SmallUploadLimit
  {
    if size <= SmallUploadLimit then Small else Chunked
  }

  /** One ranged PUT of the upload session: the byte range `off` to
      `end - 1` and the piece of payload sent in its body. */
  datatype Put = Put(off: nat, end: nat, piece: Bytes)

  function MakePut(content: Bytes, off: nat, end: nat): Put
    requires off < end <= |content|
  {
    Put(off, end, content[off..end])
  }

  /** The `Content-Range` header of a PUT: `bytes {off}-{end-1}/{total}`. */
  function ContentRange(p: Put, total: nat): (h: string)
    requires p.end >= 1
    ensures StartsWith(h, "bytes " + Digits(p.off) + "-")
    ensures EndsWith(h, "-" + Digits(p.end - 1) + "/" + Digits(total))
  {
    "bytes " + Digits(p.off) + "-" + Digits(p.end - 1) + "/" + Digits(total)
  }

  /** The `Content-Length` header of a PUT. */
  function ContentLength(p: Put): nat {
    |p.piece|
  }

  /** The PUTs the loop sends from offset `off` on when every one succeeds. */
  function PlanFrom(content: Bytes, chunk: nat, off: nat): seq<Put>
    requires chunk > 0 && off <= |content|
    decreases |content| - off
  {
    if off == |content| then []
    else
      var end := if off + chunk < |content| then off + chunk else |content|;
      [MakePut(content, off, end)] + PlanFrom(content, chunk, end)
  }

  /** The payload concatenated from a list of PUTs. */
  function Joined(puts: seq<Put>): Bytes {
    if puts == [] then [] else puts[0].piece + Joined(puts[1..])
  }

  /** A well-formed piece: non-empty, at most `chunk` long, cut where the
      loop cuts (`end = min(off + chunk, total)`), and its `Content-Length`
      is the size of the range. */
  predicate WellFormed(p: Put, content: Bytes, chunk: nat) {
    && p.off < p.end <= |content|
    && p.end == (if p.off + chunk < |content| then p.off + chunk else |content|)
    && p.piece == content[p.off..p.end]
    && ContentLength(p) == p.end - p.off <= chunk
  }

  /** The ranges start at `off`, follow each other without gap or overlap
      and end at `total`; the list is empty exactly when `off == total`. */
  predicate Contiguous(p: seq<Put>, off: nat, total: nat) {
    && (p == [] <==> off == total)
    && (p != [] ==> p[0].off == off && p[|p| - 1].end == total)
    && (forall i :: 0 <= i < |p| - 1 ==> p[i].end == p[i + 1].off)
  }

  predicate AllWellFormed(p: seq<Put>, content: Bytes, chunk: nat) {
    forall i :: 0 <= i < |p| ==> WellFormed(p[i], content, chunk)
  }

  /** The planned ranges tile the rest of the payload. */
  lemma {:induction false} PlanContiguous(content: Bytes, chunk: nat, off: nat)
    requires chunk > 0 && off <= |content|
    ensures Contiguous(PlanFrom(content, chunk, off), off, |content|)
    decreases |content| - off
  {
    if off < |content| {
      var end := if off + chunk < |content| then off + chunk else |content|;
      PlanContiguous(content, chunk, end);
      var p := PlanFrom(content, chunk, off);
      var rest := PlanFrom(content, chunk, end);
      assert p[1..] == rest;
      forall i | 0 <= i < |p| - 1 ensures p[i].end == p[i + 1].off {
        if i > 0 { assert p[i] == rest[i - 1] && p[i + 1] == rest[i]; }
      }
    }
  }

  /** Every PUT of the plan is well formed. */
  lemma {:induction false} PlanWellFormed(content: Bytes, chunk: nat, off: nat)
    requires chunk > 0 && off <= |content|
    ensures AllWellFormed(PlanFrom(content, chunk, off), content, chunk)
    decreases |content| - off
  {
    if off < |content| {
      var end := if off + chunk < |content| then off + chunk else |content|;
      PlanWellFormed(content, chunk, end);
      var p := PlanFrom(content, chunk, off);
      var rest := PlanFrom(content, chunk, end);
      assert p[0] == MakePut(content, off, end);
      forall i | 0 <= i < |p| ensures WellFormed(p[i], content, chunk) {
        if i > 0 { assert p[i] == rest[i - 1]; }
      }
    }
  }

  /** Together the pieces are exactly the rest of the payload. */
  lemma {:induction false} PlanJoined(content: Bytes, chunk: nat, off: nat)
    requires chunk > 0 && off <= |content|
    ensures Joined(PlanFrom(content, chunk, off)) == content[off..]
    decreases |content| - off
  {
    if off < |content| {
      var end := if off + chunk < |content| then off + chunk else |content|;
      PlanJoined(content, chunk, end);
      JoinedCons(MakePut(content, off, end), PlanFrom(content, chunk, end));
      assert content[off..] == content[off..end] + content[end..];
    }
  }

  lemma JoinedCons(p: Put, rest: seq<Put>)
    ensures Joined([p] + rest) == p.piece + Joined(rest)
  {
    assert ([p] + rest)[1..] == rest;
  }

  lemma MulAtLeast(a: int, c: int)
    requires a >= 1 && c > 0
    ensures a * c >= c
  {
  }

  lemma DivUnique(x: int, c: int, q: int, r: int)
    requires c > 0 && 0 <= r < c && x == q * c + r
    ensures x / c == q
  {
    var q', r' := x / c, x % c;
    assert x == q' * c + r';
    if q' > q {
      MulAtLeast(q' - q, c);
      assert false;
    } else if q' < q {
      MulAtLeast(q - q', c);
      assert false;
    }
  }

  lemma CeilStep(n: nat, c: nat)
    requires c > 0 && n > c
    ensures (n - c + c - 1) / c + 1 == (n + c - 1) / c
  {
    var y := n - c + c - 1;
    var q, r := y / c, y % c;
    assert y == q * c + r;
    assert n + c - 1 == (q + 1) * c + r;
    DivUnique(n + c - 1, c, q + 1, r);
  }

  lemma CeilOne(n: nat, c: nat)
    requires 0 < n <= c
    ensures (n + c - 1) / c == 1
  {
  }

  /** There are `ceil((total - off) / chunk)` PUTs. */
  lemma {:induction false} PlanCount(content: Bytes, chunk: nat, off: nat)
    requires chunk > 0 && off <= |content|
    ensures |PlanFrom(content, chunk, off)| == (|content| - off + chunk - 1) / chunk
    decreases |content| - off
  {
    if off < |content| {
      var end := if off + chunk < |content| then off + chunk else |content|;
      PlanCount(content, chunk, end);
      if off + chunk < |content| {
        CeilStep(|content| - off, chunk);
      } else {
        CeilOne(|content| - off, chunk);
      }
    }
  }

  /** The statuses `upload_chunked` accepts for a chunk. */
  predicate Accepted(status: int) {
    status == 200 || status == 201 || status == 202
  }

  /** The first `n` PUTs were all accepted. */
  predicate AcceptedUpTo(respond: nat -> int, n: int) {
    forall k: nat :: k < n ==> Accepted(respond(k))
  }

  /** The range loop of `upload_chunked`. The upload session has already
      been created; `respond(k)` is the status the session answers to the
      k-th PUT. The loop stops at the first PUT that is not accepted. */
  method UploadChunked(content: Bytes, chunk: nat, respond: nat -> int) returns (sent: seq<Put>, ok: bool)
    requires chunk > 0
    ensures |sent| <= |PlanFrom(content, chunk, 0)| && sent == PlanFrom(content, chunk, 0)[..|sent|]
    ensures ok <==> AcceptedUpTo(respond, |PlanFrom(content, chunk, 0)|)
    ensures ok ==> sent == PlanFrom(content, chunk, 0)
    ensures !ok ==> |sent| > 0 && !Accepted(respond(|sent| - 1))
    ensures AcceptedUpTo(respond, |sent| - 1)
  {
    var total := |content|;
    var off := 0;
    sent := [];
    ok := true;
    ghost var plan := PlanFrom(content, chunk, 0);
    while off < total
      invariant 0 <= off <= total
      invariant sent + PlanFrom(content, chunk, off) == plan
      invariant AcceptedUpTo(respond, |sent|)
      decreases total - off
    {
      var end := if off + chunk < total then off + chunk else total;
      var put := MakePut(content, off, end);
      sent := sent + [put];
      var status := respond(|sent| - 1);
      if !Accepted(status) {
        ok := false;
        StoppedEarly(plan, sent, PlanFrom(content, chunk, end), respond);
        return;
      }
      off := end;
    }
  }

  /** What the loop knows when a PUT is refused. */
  lemma StoppedEarly(plan: seq<Put>, sent: seq<Put>, rest: seq<Put>, respond: nat -> int)
    requires sent != [] && sent + rest == plan
    requires AcceptedUpTo(respond, |sent| - 1) && !Accepted(respond(|sent| - 1))
    ensures |sent| <= |plan| && sent == plan[..|sent|]
    ensures !AcceptedUpTo(respond, |plan|)
  {
    assert plan[..|sent|] == sent;
  }

  /** A 6 MiB payload with the default 5 MiB chunk goes up in two PUTs,
      `[0, 5 MiB)` and `[5 MiB, 6 MiB)`. */
  lemma SixMegabytesInTwoPuts(content: Bytes)
    requires |content| == 6 * 1024 * 1024
    ensures var p := PlanFrom(content, DefaultChunk, 0);
      |p| == 2 && p[0].off == 0 && p[0].end == DefaultChunk && p[1].off == DefaultChunk && p[1].end == |content|
  {
    var p := PlanFrom(content, DefaultChunk, 0);
    assert p == [MakePut(content, 0, DefaultChunk)] + PlanFrom(content, DefaultChunk, DefaultChunk);
    assert PlanFrom(content, DefaultChunk, DefaultChunk) == [MakePut(content, DefaultChunk, |content|)] + PlanFrom(content, DefaultChunk, |content|);
  }
}
