/**
 * Device selection in src/beurer/transport/usb_hid.py: the supported vendor
 * and product ids (`set_vids`, `set_pids`) and the `discover` filter over the
 * records `hid.enumerate()` returned.
 */
module Discovery {
  import opened Wrappers
  import opened Hex

  /** An entry handed to `set_vids`/`set_pids`: a string or an int. */
  datatype IdSpec = HexText(text: string) | Integer(value: int)

  /** One record of `hid.enumerate()`, with the keys the driver reads. */
  datatype HidRecord = HidRecord(vendorId: int, productId: int, path: seq<uint8>, productString: string)

  /** One element of the comprehension: `int(e, 16)` for a string, `int(e)`
      for an int. */
  function ParseId(e: IdSpec): Result<int, PyError>
  {
    match e
    case HexText(t) => ParseHexInt(t)
    case Integer(v) => Success(v)
  }

  /** `set_vids`/`set_pids`: the list comprehension over the given entries.
      It raises exactly when some string entry is not base-16; otherwise the
      result has one id per entry, in order, strings parsed and ints kept. */
  function ParseIds(ids: seq<IdSpec>): (r: Result<seq<int>, PyError>)
    ensures r.Success? <==> forall i :: 0 <= i < |ids| ==> ids[i].Integer? || ParseHexInt(ids[i].text).Success?
    ensures r.Success? ==> |r.value| == |ids|
    ensures r.Success? ==> forall i :: 0 <= i < |ids| && ids[i].Integer? ==> r.value[i] == ids[i].value
    ensures r.Success? ==> forall i :: 0 <= i < |ids| && ids[i].HexText? ==> ParseHexInt(ids[i].text) == Success(r.value[i])
  {
    if |ids| == 0 then Success([])
    else
      var v :- ParseId(ids[0]);
      var rest :- ParseIds(ids[1..]);
      Success([v] + rest)
  }

  /** Ids written the way Python's `hex` prints them read back as
      themselves. */
  lemma {:induction false} ParseIdsPyHex(xs: seq<int>)
    ensures ParseIds(seq(|xs|, i requires 0 <= i < |xs| => HexText(PyHex(xs[i])))) == Success(xs)
  {
    var ids := seq(|xs|, i requires 0 <= i < |xs| => HexText(PyHex(xs[i])));
    forall i | 0 <= i < |xs|
      ensures ParseHexInt(ids[i].text) == Success(xs[i])
    {
      ParseHexIntPyHex(xs[i]);
    }
    var r := ParseIds(ids);
    assert r.value == xs;
  }

  predicate Supported(d: HidRecord, vids: seq<int>, pids: seq<int>)
  {
    d.vendorId in vids && d.productId in pids
  }

  /** The records that are supported, in enumeration order. */
  function Filter(records: seq<HidRecord>, vids: seq<int>, pids: seq<int>): (r: seq<HidRecord>)
    ensures |r| <= |records|
    ensures forall k :: 0 <= k < |r| ==> Supported(r[k], vids, pids)
    decreases |records|
  {
    if |records| == 0 then []
    else
      var last := records[|records| - 1];
      Filter(records[..|records| - 1], vids, pids) + (if Supported(last, vids, pids) then [last] else [])
  }

  /** The filter keeps every supported record as often as it was
      enumerated, and nothing else. */
  lemma {:induction false} FilterContents(records: seq<HidRecord>, vids: seq<int>, pids: seq<int>)
    ensures forall d :: multiset(Filter(records, vids, pids))[d]
                        == if Supported(d, vids, pids) then multiset(records)[d] else 0
    ensures forall d :: d in Filter(records, vids, pids) <==> d in records && Supported(d, vids, pids)
    decreases |records|
  {
    if |records| > 0 {
      var last := records[|records| - 1];
      var front := records[..|records| - 1];
      assert records == front + [last];
      assert multiset(records) == multiset(front) + multiset{last};
      FilterContents(front, vids, pids);
    }
  }

  /** Filtering commutes with concatenation: records enumerated earlier
      come out earlier. */
  lemma {:induction false} FilterAppend(a: seq<HidRecord>, b: seq<HidRecord>, vids: seq<int>, pids: seq<int>)
    ensures Filter(a + b, vids, pids) == Filter(a, vids, pids) + Filter(b, vids, pids)
    decreases |b|
  {
    if |b| == 0 {
      assert a + b == a;
    } else {
      var last := b[|b| - 1];
      var tail := if Supported(last, vids, pids) then [last] else [];
      assert (a + b)[..|a + b| - 1] == a + b[..|b| - 1];
      assert (a + b)[|a + b| - 1] == last;
      assert Filter(a + b, vids, pids) == Filter(a + b[..|b| - 1], vids, pids) + tail;
      assert Filter(b, vids, pids) == Filter(b[..|b| - 1], vids, pids) + tail;
      FilterAppend(a, b[..|b| - 1], vids, pids);
    }
  }

  /** `discover`: walk the enumerated records and keep those whose vendor
      id and product id are both supported. */
  method Discover(records: seq<HidRecord>, vids: seq<int>, pids: seq<int>) returns (devices: seq<HidRecord>)
    ensures forall d :: d in devices <==> d in records && Supported(d, vids, pids)
    ensures forall d :: multiset(devices)[d] == if Supported(d, vids, pids) then multiset(records)[d] else 0
    ensures devices == Filter(records, vids, pids)
  {
    FilterContents(records, vids, pids);
    devices := [];
    for i := 0 to |records|
      invariant devices == Filter(records[..i], vids, pids)
    {
      assert records[..i + 1][..i] == records[..i];
      var d := records[i];
      if d.vendorId in vids {
        if d.productId in pids {
          devices := devices + [d];
        }
      }
    }
    assert records[..|records|] == records;
  }
}
