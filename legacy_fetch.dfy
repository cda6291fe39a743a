/**
  The earlier `download_file` in the binary's entry file: the same request,
  name resolution and chunk loop as the service version, without a byte
  counter, without broadcasting and without a registry to clear.  Its
  outcome and its effect on the working directory are the same functions of
  the inputs as the service version's.
*/
module LegacyFetch {
  import opened Types
  import opened Naming
  import opened Storage
  import opened Fetch

  /** The `while let` loop: append every chunk to `path` until the first failure. */
  method WriteBody(path: string, body: seq<Arrival>, dir: WorkDir) returns (failure: Option<FetchError>)
    requires path in dir.files
    modifies dir
    ensures var n := Delivered(body);
            && dir.files == old(dir.files)[path := old(dir.files[path]) + Bytes(body[..n])]
            && failure == (if n == |body| then None else Some(FailureAt(body, n)))
  {
    var i := 0;
    assert Bytes(body[..0]) == [] by { assert body[..0] == []; }
    assert old(dir.files[path]) + [] == old(dir.files[path]);
    while i < |body|
      invariant 0 <= i <= |body|
      invariant forall j :: 0 <= j < i ==> Stored(body[j])
      invariant dir.files == old(dir.files)[path := old(dir.files[path]) + Bytes(body[..i])]
    {
      match body[i]
      case Broken =>
        DeliveredIsFirstFailure(body, i);
        return Some(StreamFailed(i));
      case Received(data, written) =>
        if !written {
          DeliveredIsFirstFailure(body, i);
          return Some(WriteFailed(i));
        }
        dir.Append(path, data);
        BytesSnoc(body, i);
        assert (old(dir.files[path]) + Bytes(body[..i])) + data == old(dir.files[path]) + Bytes(body[..i + 1]);
        i := i + 1;
    }
    DeliveredIsFirstFailure(body, i);
    failure := None;
  }

  /** `download_file` of the entry file. */
  method DownloadFile(response: Option<Response>, createOk: bool, sanitize: string -> string, dir: WorkDir)
    returns (result: Result<Target, FetchError>)
    modifies dir
    ensures result == Outcome(response, createOk, sanitize)
    ensures dir.files == FilesAfter(old(dir.files), response, createOk, sanitize)
  {
    if response.None? {
      return Err(RequestFailed);
    }
    var r := response.value;
    var t := Resolve(r.finalPath, sanitize);
    if !createOk {
      return Err(CreateFailed);
    }
    dir.Create(t.source);
    var failure := WriteBody(t.source, r.body, dir);
    ghost var stored := Bytes(r.body[..Delivered(r.body)]);
    assert [] + stored == stored;
    if failure.Some? {
      return Err(failure.value);
    }
    result := Ok(t);
  }
}
