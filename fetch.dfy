/**
  `download_file` of the service module: send the request, resolve the two
  paths from the final URL, create the local file, then pull the body chunk
  by chunk, appending each chunk to the file, counting the bytes and
  broadcasting the new percentage to every registered observer.  The first
  failed chunk or failed write aborts with an error and leaves the partial
  file; only a body read to its end clears the registry.

  The network is an input: `None` when the request itself failed, otherwise
  the final URL path, the advertised content length and the body as a
  sequence of arrivals.  Whether `File::create` succeeds is an input too.
*/
module Fetch {
  import opened Types
  import opened PathNames
  import opened Naming
  import opened Progress
  import opened Observers
  import opened Storage

  /** One item of the body stream, and whether writing it to the file succeeded. */
  datatype Arrival = Received(data: seq<Byte>, written: bool) | Broken

  /** The response after redirects, as far as the download loop sees it. */
  datatype Response = Response(finalPath: string, contentLength: Option<nat>, body: seq<Arrival>)

  datatype FetchError = RequestFailed | CreateFailed | StreamFailed(at: nat) | WriteFailed(at: nat)

  /** An arrival that reaches the file. */
  predicate Stored(a: Arrival) {
    a.Received? && a.written
  }

  /** The number of leading arrivals that reach the file: where the loop stops. */
  function Delivered(body: seq<Arrival>): (n: nat)
    ensures n <= |body|
    ensures forall j :: 0 <= j < n ==> Stored(body[j])
    ensures n < |body| ==> !Stored(body[n])
  {
    if body == [] || !Stored(body[0]) then 0 else 1 + Delivered(body[1..])
  }

  /** The stop index is the first arrival that does not reach the file. */
  lemma {:induction false} DeliveredIsFirstFailure(body: seq<Arrival>, i: nat)
    requires i <= |body|
    requires forall j :: 0 <= j < i ==> Stored(body[j])
    requires i == |body| || !Stored(body[i])
    ensures Delivered(body) == i
  {
    if i > 0 {
      assert Stored(body[0]);
      assert forall j :: 0 <= j < i - 1 ==> body[1..][j] == body[j + 1];
      DeliveredIsFirstFailure(body[1..], i - 1);
    }
  }

  /** The bytes of the received chunks, in arrival order. */
  function Bytes(body: seq<Arrival>): seq<Byte> {
    if body == [] then []
    else Bytes(body[..|body| - 1]) + (if body[|body| - 1].Received? then body[|body| - 1].data else [])
  }

  /** What is on disk grows: the bytes of a shorter prefix start the bytes of a longer one. */
  lemma {:induction false} BytesPrefix(body: seq<Arrival>, j: nat, k: nat)
    requires j <= k <= |body|
    ensures Bytes(body[..j]) <= Bytes(body[..k])
  {
    if j < k {
      BytesPrefix(body, j, k - 1);
      BytesSnoc(body, k - 1);
    }
  }

  /** The size the percentage is measured against: 0 when none was advertised. */
  function TotalSize(r: Response): (n: nat)
    ensures r.contentLength.Some? ==> n == r.contentLength.value
    ensures r.contentLength.None? ==> n == 0
  {
    match r.contentLength
    case Some(n) => n
    case None => 0
  }

  /** The percentage computed after each of the first `n` chunks. */
  function Trail(body: seq<Arrival>, total: nat, n: nat): (t: seq<real>)
    requires n <= |body|
    ensures |t| == n
  {
    seq(n, k requires 0 <= k < n => Percent(|Bytes(body[..k + 1])|, total))
  }

  /** The messages broadcast after each of the first `n` chunks. */
  function Messages(body: seq<Arrival>, total: nat, n: nat, render: real -> string): (ms: seq<string>)
    requires n <= |body|
    ensures |ms| == n
  {
    if n == 0 then [] else Messages(body, total, n - 1, render) + [render(Percent(|Bytes(body[..n])|, total))]
  }

  /** The k-th message is the k-th percentage, rendered. */
  lemma {:induction false} MessagesRenderTrail(body: seq<Arrival>, total: nat, n: nat, render: real -> string)
    requires n <= |body|
    ensures forall k :: 0 <= k < n ==> Messages(body, total, n, render)[k] == render(Trail(body, total, n)[k])
  {
    if n > 0 {
      MessagesRenderTrail(body, total, n - 1, render);
    }
  }

  /** Within one download the figures stay in range and never go down. */
  lemma TrailMonotone(body: seq<Arrival>, total: nat, n: nat)
    requires n <= |body|
    ensures forall k :: 0 <= k < n ==> 0.0 <= Trail(body, total, n)[k] <= 100.0
    ensures forall j, k :: 0 <= j <= k < n ==> Trail(body, total, n)[j] <= Trail(body, total, n)[k]
  {
    var t := Trail(body, total, n);
    forall k | 0 <= k < n ensures 0.0 <= t[k] <= 100.0 {
      PercentRange(|Bytes(body[..k + 1])|, total);
    }
    forall j, k | 0 <= j <= k < n ensures t[j] <= t[k] {
      BytesPrefix(body, j + 1, k + 1);
      PercentMonotone(|Bytes(body[..j + 1])|, |Bytes(body[..k + 1])|, total);
    }
  }

  /** Without an advertised size every figure is 0; with one, the last is 100 once it is reached. */
  lemma TrailEnd(body: seq<Arrival>, total: nat, n: nat)
    requires n <= |body|
    ensures total == 0 ==> forall k :: 0 <= k < n ==> Trail(body, total, n)[k] == 0.0
    ensures total > 0 && n > 0 ==> (Trail(body, total, n)[n - 1] == 100.0 <==> |Bytes(body[..n])| >= total)
  {
    var t := Trail(body, total, n);
    forall k | 0 <= k < n ensures total == 0 ==> t[k] == 0.0 {
      PercentRange(|Bytes(body[..k + 1])|, total);
    }
    if n > 0 {
      PercentRange(|Bytes(body[..n])|, total);
    }
  }

  /** The failure reported when the loop stops at arrival `n`. */
  function FailureAt(body: seq<Arrival>, n: nat): FetchError
    requires n < |body|
  {
    if body[n].Broken? then StreamFailed(n) else WriteFailed(n)
  }

  /** The result of `download_file` as a function of what the network and the disk do. */
  function Outcome(response: Option<Response>, createOk: bool, sanitize: string -> string): (r: Result<Target, FetchError>)
    ensures r == Err(RequestFailed) <==> response.None?
    ensures r == Err(CreateFailed) <==> response.Some? && !createOk
    ensures r.Ok? ==> response.Some? && r.value == Resolve(response.value.finalPath, sanitize)
    ensures r.Err? && (r.error.StreamFailed? || r.error.WriteFailed?) ==>
              response.Some? && createOk && r.error.at == Delivered(response.value.body) < |response.value.body|
  {
    match response
    case None => Err(RequestFailed)
    case Some(r) =>
      if !createOk then Err(CreateFailed)
      else
        var n := Delivered(r.body);
        if n == |r.body| then Ok(Resolve(r.finalPath, sanitize)) else Err(FailureAt(r.body, n))
  }

  /** The working directory after `download_file`: the source file holds what was written. */
  function FilesAfter(files: map<string, seq<Byte>>, response: Option<Response>, createOk: bool,
                      sanitize: string -> string): (f: map<string, seq<Byte>>)
    ensures files.Keys <= f.Keys
    ensures forall p :: p in f && (p !in files || f[p] != files[p]) ==>
              response.Some? && createOk && p == Resolve(response.value.finalPath, sanitize).source
  {
    match response
    case None => files
    case Some(r) =>
      if !createOk then files
      else files[Resolve(r.finalPath, sanitize).source := Bytes(r.body[..Delivered(r.body)])]
  }

  /** The progress messages `download_file` broadcasts. */
  function Sent(response: Option<Response>, createOk: bool, render: real -> string): (ms: seq<string>)
    ensures |ms| == if response.Some? && createOk then Delivered(response.value.body) else 0
  {
    match response
    case None => []
    case Some(r) =>
      if !createOk then [] else Messages(r.body, TotalSize(r), Delivered(r.body), render)
  }

  /**
    The download succeeds exactly when the request goes out, the file is
    created and every chunk arrives and is written; the file then holds the
    whole body and the paths are the resolved ones.
  */
  lemma SuccessIffWholeBody(files: map<string, seq<Byte>>, response: Option<Response>, createOk: bool,
                            sanitize: string -> string)
    ensures Outcome(response, createOk, sanitize).Ok? <==>
              response.Some? && createOk && forall j :: 0 <= j < |response.value.body| ==> Stored(response.value.body[j])
    ensures Outcome(response, createOk, sanitize).Ok? ==>
              var t := Outcome(response, createOk, sanitize).value;
              && t == Resolve(response.value.finalPath, sanitize)
              && FilesAfter(files, response, createOk, sanitize)[t.source] == Bytes(response.value.body)
  {
    if response.Some? && createOk {
      var body := response.value.body;
      if forall j :: 0 <= j < |body| ==> Stored(body[j]) {
        DeliveredIsFirstFailure(body, |body|);
        assert body[..|body|] == body;
      }
    }
  }

  /**
    A chunk or write failure at arrival `n`: every earlier arrival reached
    the file, and the file keeps exactly their bytes.
  */
  lemma FailureKeepsPartialFile(files: map<string, seq<Byte>>, response: Option<Response>, createOk: bool,
                                sanitize: string -> string)
    requires Outcome(response, createOk, sanitize).Err?
    ensures var e := Outcome(response, createOk, sanitize).error;
            (e.StreamFailed? || e.WriteFailed?) ==>
              && response.Some? && createOk
              && e.at < |response.value.body|
              && (forall j :: 0 <= j < e.at ==> Stored(response.value.body[j]))
              && (e.StreamFailed? <==> response.value.body[e.at].Broken?)
              && FilesAfter(files, response, createOk, sanitize)[Resolve(response.value.finalPath, sanitize).source]
                   == Bytes(response.value.body[..e.at])
  {
  }

  lemma BytesSnoc(body: seq<Arrival>, i: nat)
    requires i < |body|
    ensures Bytes(body[..i + 1]) == Bytes(body[..i]) + (if body[i].Received? then body[i].data else [])
  {
    assert body[..i + 1][..i] == body[..i];
  }

  /** Below the stopping point every arrival is stored; the first one that is not is the stopping point. */
  lemma DeliveredStops(body: seq<Arrival>, i: nat)
    requires i <= Delivered(body) && i < |body|
    ensures Stored(body[i]) <==> i + 1 <= Delivered(body)
    ensures !Stored(body[i]) ==> Delivered(body) == i
  {
  }

  lemma MessagesSnoc(body: seq<Arrival>, total: nat, i: nat, render: real -> string)
    requires i < |body|
    ensures Messages(body, total, i + 1, render)
            == Messages(body, total, i, render) + [render(Percent(|Bytes(body[..i + 1])|, total))]
  {
  }

  /**
    One pass of the `while let` loop over a chunk that reaches the file:
    append it, add its length to the running count, and broadcast the new
    percentage.
  */
  method StoreChunk(path: string, body: seq<Arrival>, i: nat, total: nat, render: real -> string,
                    downloaded: nat, ghost prefix: seq<Byte>, reg: Registry, dir: WorkDir)
    returns (next: nat, m: string)
    requires i < |body| && Stored(body[i])
    requires path in dir.files && dir.files[path] == prefix + Bytes(body[..i])
    requires downloaded == |Bytes(body[..i])|
    modifies dir, reg
    ensures next == |Bytes(body[..i + 1])|
    ensures m == render(Percent(next, total))
    ensures dir.files == old(dir.files)[path := prefix + Bytes(body[..i + 1])]
    ensures reg.channels == Fanout(old(reg.channels), m) && reg.ended == old(reg.ended)
  {
    var data := body[i].data;
    dir.Append(path, data);
    BytesSnoc(body, i);
    assert (prefix + Bytes(body[..i])) + data == prefix + Bytes(body[..i + 1]);
    next := downloaded + |data|;
    m := render(Percent(next, total));
    reg.Broadcast(m);
  }

  /**
    The `while let` loop: append each chunk to `path`, keep the running byte
    count, and broadcast the rendered percentage after every chunk.
  */
  method ReceiveBody(path: string, body: seq<Arrival>, total: nat, render: real -> string,
                     reg: Registry, dir: WorkDir)
    returns (downloaded: nat, failure: Option<FetchError>)
    requires path in dir.files
    modifies dir, reg
    ensures var n := Delivered(body);
            && downloaded == |Bytes(body[..n])|
            && dir.files == old(dir.files)[path := old(dir.files[path]) + Bytes(body[..n])]
            && failure == (if n == |body| then None else Some(FailureAt(body, n)))
    ensures reg.channels == FanoutAll(old(reg.channels), Messages(body, total, Delivered(body), render))
    ensures reg.ended == old(reg.ended)
  {
    ghost var prefix := dir.files[path];
    downloaded := 0;
    var i := 0;
    assert Bytes(body[..0]) == [] by { assert body[..0] == []; }
    assert prefix + [] == prefix;
    assert old(dir.files)[path := prefix + Bytes(body[..0])] == old(dir.files);
    ghost var sent: seq<string> := [];
    while i < |body|
      invariant 0 <= i <= Delivered(body)
      invariant downloaded == |Bytes(body[..i])|
      invariant dir.files == old(dir.files)[path := prefix + Bytes(body[..i])]
      invariant sent == Messages(body, total, i, render)
      invariant reg.channels == FanoutAll(old(reg.channels), sent) && reg.ended == old(reg.ended)
    {
      DeliveredStops(body, i);
      if !Stored(body[i]) {
        return downloaded, Some(if body[i].Broken? then StreamFailed(i) else WriteFailed(i));
      }
      var m;
      downloaded, m := StoreChunk(path, body, i, total, render, downloaded, prefix, reg, dir);
      FanoutAllSnoc(old(reg.channels), sent, m);
      MessagesSnoc(body, total, i, render);
      sent := sent + [m];
      i := i + 1;
    }
    failure := None;
  }

  /**
    The part of `download_file` after the file was created at `t.source`:
    receive the body, and clear the registry when it was read to its end.
  */
  method Transfer(r: Response, t: Target, render: real -> string, reg: Registry, dir: WorkDir)
    returns (result: Result<Target, FetchError>)
    modifies reg, dir
    ensures var n := Delivered(r.body);
            && result == (if n == |r.body| then Ok(t) else Err(FailureAt(r.body, n)))
            && dir.files == old(dir.files)[t.source := Bytes(r.body[..n])]
    ensures var after := FanoutAll(old(reg.channels), Messages(r.body, TotalSize(r), Delivered(r.body), render));
            if result.Ok? then reg.channels == [] && reg.ended == old(reg.ended) + after
            else reg.channels == after && reg.ended == old(reg.ended)
  {
    dir.Create(t.source);
    ghost var created := dir.files;
    var downloaded, failure := ReceiveBody(t.source, r.body, TotalSize(r), render, reg, dir);
    ghost var stored := Bytes(r.body[..Delivered(r.body)]);
    assert created[t.source] + stored == stored;
    assert dir.files == old(dir.files)[t.source := stored] by {
      assert dir.files == created[t.source := stored];
    }
    if failure.Some? {
      return Err(failure.value);
    }
    reg.Clear();
    result := Ok(t);
  }

  /** `download_file`, with the broadcast of every percentage and the final clear. */
  method DownloadFile(response: Option<Response>, createOk: bool, sanitize: string -> string,
                      render: real -> string, reg: Registry, dir: WorkDir)
    returns (result: Result<Target, FetchError>)
    modifies reg, dir
    ensures result == Outcome(response, createOk, sanitize)
    ensures dir.files == FilesAfter(old(dir.files), response, createOk, sanitize)
    ensures var after := FanoutAll(old(reg.channels), Sent(response, createOk, render));
            if result.Ok? then reg.channels == [] && reg.ended == old(reg.ended) + after
            else reg.channels == after && reg.ended == old(reg.ended)
  {
    if response.None? {
      assert Sent(response, createOk, render) == [];
      return Err(RequestFailed);
    }
    var r := response.value;
    var t := Resolve(r.finalPath, sanitize);
    if !createOk {
      assert Sent(response, createOk, render) == [];
      return Err(CreateFailed);
    }
    result := Transfer(r, t, render, reg, dir);
  }
}
