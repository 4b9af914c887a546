/**
 `upload_post_handler`: reads the boundary, then pulls the request body
 through a 1024-byte scratch buffer into the multipart parser.
 The socket read `httpd_req_recv` is an oracle `recv(call, want)`: what the
 `call`-th read returns when asked for `want` bytes, never more than `want`
 (zero or negative for a closed connection or a socket error).
 */
module Upload {
  import opened Wrappers
  import Multipart

  const ScratchBufSize := 1024

  function Min(a: int, b: int): int {
    if a < b then a else b
  }

  /** Total of a sequence of read results. */
  function Sum(s: seq<int>): int {
    if |s| == 0 then 0 else s[0] + Sum(s[1..])
  }

  /** The oracle honours the buffer length it is given. */
  ghost predicate Bounded(recv: (nat, nat) -> int) {
    forall k: nat, n: nat :: recv(k, n) <= n
  }

  /** A peer that always delivers every byte asked for. */
  ghost predicate Cooperative(recv: (nat, nat) -> int) {
    forall k: nat, n: nat :: recv(k, n) == n
  }

  /** The reads a cooperative peer needs for `n` bytes: full buffers, then the rest. */
  function FullChunks(n: nat): (r: seq<int>)
    decreases n
  {
    if n == 0 then [] else [Min(n, ScratchBufSize)] + FullChunks(n - Min(n, ScratchBufSize))
  }

  /**
   Call `k` asked for what the earlier reads left of the body, capped at the
   scratch buffer size; every call asked for at least one byte.
   */
  predicate FollowsSchedule(contentLen: nat, requested: seq<nat>, received: seq<int>) {
    |requested| == |received| &&
    forall k :: 0 <= k < |requested| ==>
      requested[k] == Min(contentLen - Sum(received[..k]), ScratchBufSize) && requested[k] > 0
  }

  /** One more call that asks for `min(remaining, 1024)` keeps the schedule. */
  lemma ScheduleExtends(contentLen: nat, requested: seq<nat>, received: seq<int>, want: nat, got: int)
    requires FollowsSchedule(contentLen, requested, received)
    requires want == Min(contentLen - Sum(received), ScratchBufSize) && want > 0
    ensures FollowsSchedule(contentLen, requested + [want], received + [got])
    ensures Sum(received + [got]) == Sum(received) + got
  {
    PrefixesOfAppend(received, got);
    var rq, rc := requested + [want], received + [got];
    forall k | 0 <= k < |rq|
      ensures rq[k] == Min(contentLen - Sum(rc[..k]), ScratchBufSize) && rq[k] > 0
    {
      if k < |requested| {
        assert rq[k] == requested[k] && rc[..k] == received[..k];
      } else {
        assert rc[..k] == received;
      }
    }
  }

  /**
   The receive loop. `requested` and `received` record, call by call, the
   length passed to `httpd_req_recv` and what it returned; the bytes of a
   positive read go to the multipart parser. `ok` is false when a read
   returned zero or less, which ends the upload with `ESP_FAIL`.
   */
  method ReceiveBody(contentLen: nat, recv: (nat, nat) -> int)
    returns (ok: bool, requested: seq<nat>, received: seq<int>)
    requires Bounded(recv)
    ensures FollowsSchedule(contentLen, requested, received)
    ensures forall k :: 0 <= k < |received| ==> received[k] == recv(k, requested[k])
    ensures ok <==> forall k :: 0 <= k < |received| ==> received[k] > 0
    ensures ok ==> Sum(received) == contentLen
    ensures !ok ==> |received| > 0 && received[|received| - 1] <= 0 &&
                    Sum(received[..|received| - 1]) < contentLen
    ensures forall k :: 0 <= k < |received| - 1 ==> received[k] > 0
    ensures Cooperative(recv) ==> ok && received == FullChunks(contentLen)
  {
    var remaining: nat := contentLen;
    requested, received := [], [];
    while remaining > 0
      invariant FollowsSchedule(contentLen, requested, received)
      invariant remaining == contentLen - Sum(received)
      invariant forall k :: 0 <= k < |received| ==> received[k] == recv(k, requested[k])
      invariant forall k :: 0 <= k < |received| ==> received[k] > 0
      decreases remaining
    {
      var want: nat := Min(remaining, ScratchBufSize);
      var got := recv(|received|, want);
      ScheduleExtends(contentLen, requested, received, want, got);
      assert (received + [got])[..|received|] == received;
      requested, received := requested + [want], received + [got];
      if got <= 0 {
        ok := false;
        return;
      }
      remaining := remaining - got;
    }
    ok := true;
    if Cooperative(recv) {
      ScheduleIsFullChunks(requested, received, contentLen);
    }
  }

  /**
   Reads that each deliver all of `min(remaining, 1024)` and add up to `n`
   are exactly the full-buffer schedule.
   */
  lemma {:induction false} ScheduleIsFullChunks(requested: seq<nat>, received: seq<int>, n: nat)
    requires FollowsSchedule(n, requested, received)
    requires forall k :: 0 <= k < |received| ==> received[k] == requested[k]
    requires Sum(received) == n
    ensures received == FullChunks(n)
    decreases |received|
  {
    if |received| > 0 {
      var c := received[0];
      assert received[..0] == [];
      ScheduleTail(requested, received, n);
      ScheduleIsFullChunks(requested[1..], received[1..], n - c);
    }
  }

  /** Dropping the first read leaves the schedule of what it did not deliver. */
  lemma ScheduleTail(requested: seq<nat>, received: seq<int>, n: nat)
    requires FollowsSchedule(n, requested, received) && |received| > 0
    requires received[0] == requested[0]
    ensures received[0] > 0
    ensures FollowsSchedule(n - received[0], requested[1..], received[1..])
  {
    var c := received[0];
    assert received[..0] == [];
    var rq, rc := requested[1..], received[1..];
    forall k | 0 <= k < |rq|
      ensures rq[k] == Min((n - c) - Sum(rc[..k]), ScratchBufSize) && rq[k] > 0
    {
      assert received[..k + 1] == [c] + rc[..k];
      SumPrepend(c, rc[..k]);
      assert rq[k] == requested[k + 1];
    }
  }

  /** Appending a read leaves earlier prefixes, and their sums, alone. */
  lemma {:induction false} PrefixesOfAppend(s: seq<int>, x: int)
    ensures Sum(s + [x]) == Sum(s) + x
    ensures forall k :: 0 <= k <= |s| ==> (s + [x])[..k] == s[..k]
    decreases |s|
  {
    if |s| > 0 {
      assert (s + [x])[1..] == s[1..] + [x];
      PrefixesOfAppend(s[1..], x);
    }
  }

  /** A cooperative upload of `n` bytes takes `ceil(n / 1024)` reads, all full but the last. */
  lemma {:induction false} FullChunksShape(n: nat)
    ensures |FullChunks(n)| == (n + ScratchBufSize - 1) / ScratchBufSize
    ensures Sum(FullChunks(n)) == n
    ensures forall k :: 0 <= k < |FullChunks(n)| - 1 ==> FullChunks(n)[k] == ScratchBufSize
    ensures n > 0 ==> FullChunks(n)[|FullChunks(n)| - 1] == n - (|FullChunks(n)| - 1) * ScratchBufSize
    decreases n
  {
    if n > 0 {
      var c := Min(n, ScratchBufSize);
      FullChunksShape(n - c);
      SumPrepend(c, FullChunks(n - c));
    }
  }

  lemma SumPrepend(x: int, s: seq<int>)
    ensures Sum([x] + s) == x + Sum(s)
  {
  }

  /** Why the handler answered `ESP_FAIL`. */
  datatype Failure = BadBoundary(reason: Multipart.BoundaryError) | ParserInitFailed | ReceiveFailed

  datatype Outcome = Uploaded | Failed(failure: Failure)

  /**
   The whole handler. `parserAllocated` is whether `multipart_parser_init`
   obtained its memory. The body is only read once a boundary and a parser
   exist.
   */
  method UploadPost(contentType: Option<string>, parserAllocated: bool, contentLen: nat,
                    recv: (nat, nat) -> int)
    returns (outcome: Outcome, boundary: string, requested: seq<nat>, received: seq<int>)
    requires Bounded(recv)
    ensures Multipart.UploadBoundary(contentType).Err? ==>
              outcome == Failed(BadBoundary(Multipart.UploadBoundary(contentType).error)) &&
              requested == [] && received == []
    ensures Multipart.UploadBoundary(contentType).Ok? ==>
              boundary == Multipart.UploadBoundary(contentType).value
    ensures Multipart.UploadBoundary(contentType).Ok? && !parserAllocated ==>
              outcome == Failed(ParserInitFailed) && requested == [] && received == []
    ensures outcome == Uploaded ==> Sum(received) == contentLen
    ensures outcome == Uploaded ==> forall k :: 0 <= k < |received| ==> received[k] > 0
    ensures outcome == Failed(ReceiveFailed) ==>
              |received| > 0 && received[|received| - 1] <= 0 && Sum(received[..|received| - 1]) < contentLen
    ensures outcome == Failed(ReceiveFailed) ==> forall k :: 0 <= k < |received| - 1 ==> received[k] > 0
    ensures Multipart.UploadBoundary(contentType).Ok? && parserAllocated ==>
              (outcome == Uploaded || outcome == Failed(ReceiveFailed)) &&
              FollowsSchedule(contentLen, requested, received) &&
              forall k :: 0 <= k < |received| ==> received[k] == recv(k, requested[k])
    ensures Multipart.UploadBoundary(contentType).Ok? && parserAllocated && Cooperative(recv) ==>
              outcome == Uploaded
  {
    requested, received := [], [];
    boundary := "";
    match Multipart.UploadBoundary(contentType)
    case Err(e) =>
      outcome := Failed(BadBoundary(e));
    case Ok(b) =>
      boundary := b;
      if !parserAllocated {
        outcome := Failed(ParserInitFailed);
        return;
      }
      var ok;
      ok, requested, received := ReceiveBody(contentLen, recv);
      outcome := if ok then Uploaded else Failed(ReceiveFailed);
  }
}
