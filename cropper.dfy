/**
  The row-range cropper `crop` of src/snip_tsv.py: one scan that records the
  first row whose chosen column equals the start marker and, independently,
  the first row equal to the end marker, followed by the Python slice
  `records[start_idx:end_idx]`.
*/
module Cropper {
  import opened Results
  import opened Coercion
  import opened Table

  /** `s[lo:hi]` for bounds that are absent (None) or non-negative. */
  function Slice<T>(s: seq<T>, lo: Option<nat>, hi: Option<nat>): (r: seq<T>)
    ensures lo.None? && hi.None? ==> r == s
    ensures forall k :: 0 <= k < |r| ==> lo.GetOr(0) + k < |s| && r[k] == s[lo.GetOr(0) + k]
    ensures |r| == if lo.GetOr(0) < Min(hi.GetOr(|s|), |s|) then Min(hi.GetOr(|s|), |s|) - lo.GetOr(0) else 0
  {
    var a := Min(lo.GetOr(0), |s|);
    var b := Min(hi.GetOr(|s|), |s|);
    if a < b then s[a..b] else []
  }

  function Min(a: int, b: int): int
  {
    if a <= b then a else b
  }

  /**
    The first row whose cell at `col` equals `v`, if any: that row matches
    and no earlier row does; None means no row matches.
  */
  function FirstMatch(rows: seq<seq<Value>>, col: int, v: Value): (r: Option<nat>)
    requires Indexable(rows, col)
    ensures IsFirstMatch(rows, col, v, r)
    decreases |rows|
  {
    if rows == [] then None
    else if Cell(rows[0], col) == v then Some(0)
    else
      match FirstMatch(rows[1..], col, v)
      case None => None
      case Some(k) => Some(k + 1)
  }

  /** `k` is the first index of `rows` matching `v` at `col`; None when none matches. */
  predicate IsFirstMatch(rows: seq<seq<Value>>, col: int, v: Value, k: Option<nat>)
    requires Indexable(rows, col)
  {
    && (k.Some? ==> k.value < |rows| && Cell(rows[k.value], col) == v)
    && forall j :: 0 <= j < |rows| && (k.None? || j < k.value) ==> Cell(rows[j], col) != v
  }

  /** The first match is unique: anything with its two properties is it. */
  lemma FirstMatchUnique(rows: seq<seq<Value>>, col: int, v: Value, k: Option<nat>)
    requires Indexable(rows, col)
    ensures IsFirstMatch(rows, col, v, k) <==> k == FirstMatch(rows, col, v)
  {
  }

  /** The end bound: only searched for when the end marker is not None. */
  function EndBound(rows: seq<seq<Value>>, col: int, end: Value): (r: Option<nat>)
    requires Indexable(rows, col)
    ensures end == NoneLit ==> r.None?
    ensures end != NoneLit ==> IsFirstMatch(rows, col, end, r)
  {
    if end == NoneLit then None else FirstMatch(rows, col, end)
  }

  /**
    What `crop(data, col, start, end)` returns: IndexError when some row has
    no position `col`; otherwise the rows from the first start match (or from
    row 0) up to, not including, the first end match (or to the last row),
    with the header and filename carried over.
  */
  function CropSpec(data: Data, col: int, start: Value, end: Value): (r: Result<Data, Error>)
    ensures r.Success? <==> Indexable(data.records, col)
    ensures r.Failure? ==> r.error == IndexError
    ensures r.Success? ==> r.value.header == data.header && r.value.filename == data.filename
  {
    if !Indexable(data.records, col) then Failure(IndexError)
    else
      var rows := data.records;
      Success(Data(Slice(rows, FirstMatch(rows, col, start), EndBound(rows, col, end)), data.header, data.filename))
  }

  /**
    The scan of `crop`: `start_idx` and `end_idx` start out None and each
    is set once, at its marker's first match.
  */
  method Crop(data: Data, col: int, start: Value, end: Value) returns (r: Result<Data, Error>)
    ensures r == CropSpec(data, col, start, end)
  {
    var rows := data.records;
    var startIdx: Option<nat> := None;
    var endIdx: Option<nat> := None;
    for i := 0 to |rows|
      invariant Indexable(rows[..i], col)
      invariant IsFirstMatch(rows[..i], col, start, startIdx)
      invariant end == NoneLit ==> endIdx.None?
      invariant end != NoneLit ==> IsFirstMatch(rows[..i], col, end, endIdx)
    {
      var record := rows[i];
      if !ValidIndex(record, col) {
        return Failure(IndexError);
      }
      assert rows[..i + 1] == rows[..i] + [record];
      if Cell(record, col) == start && startIdx.None? {
        startIdx := Some(i);
      }
      if end != NoneLit && Cell(record, col) == end && endIdx.None? {
        endIdx := Some(i);
      }
    }
    assert rows[..|rows|] == rows;
    FirstMatchUnique(rows, col, start, startIdx);
    if end != NoneLit {
      FirstMatchUnique(rows, col, end, endIdx);
    }
    r := Success(Data(Slice(rows, startIdx, endIdx), data.header, data.filename));
  }

  /** No row of `rows` has `v` at `col`. */
  predicate NoMatch(rows: seq<seq<Value>>, col: int, v: Value)
    requires Indexable(rows, col)
  {
    IsFirstMatch(rows, col, v, None)
  }

  /** The crop has no end bound: the end marker is None or never matches. */
  predicate Unbounded(rows: seq<seq<Value>>, col: int, end: Value)
    requires Indexable(rows, col)
  {
    end == NoneLit || NoMatch(rows, col, end)
  }

  /** Start marker found first at `s`, no end bound: everything from row `s` on. */
  lemma CropFromStartToLast(data: Data, col: int, start: Value, end: Value, s: nat)
    requires Indexable(data.records, col)
    requires IsFirstMatch(data.records, col, start, Some(s))
    requires Unbounded(data.records, col, end)
    ensures CropSpec(data, col, start, end) == Success(Data(data.records[s..], data.header, data.filename))
  {
    FirstMatchUnique(data.records, col, start, Some(s));
    if end != NoneLit {
      FirstMatchUnique(data.records, col, end, None);
    }
    assert EndBound(data.records, col, end) == None;
    assert data.records[s..|data.records|] == data.records[s..];
  }

  /** Start and end markers found first at `s` and `e`: rows `s` up to, not including, `e`. */
  lemma CropBetween(data: Data, col: int, start: Value, end: Value, s: nat, e: nat)
    requires Indexable(data.records, col)
    requires end != NoneLit
    requires IsFirstMatch(data.records, col, start, Some(s))
    requires IsFirstMatch(data.records, col, end, Some(e))
    ensures CropSpec(data, col, start, end) ==
      Success(Data(if s < e then data.records[s..e] else [], data.header, data.filename))
  {
  }

  /** Start marker never found: the crop begins at row 0, up to the end match if any. */
  lemma CropWithoutStart(data: Data, col: int, start: Value, end: Value)
    requires Indexable(data.records, col)
    requires NoMatch(data.records, col, start)
    ensures Unbounded(data.records, col, end) ==> CropSpec(data, col, start, end).value.records == data.records
    ensures forall e: nat :: end != NoneLit && IsFirstMatch(data.records, col, end, Some(e)) ==>
      CropSpec(data, col, start, end).value.records == data.records[..e]
  {
  }

  /** Equal start and end markers that occur in the column give an empty crop. */
  lemma CropSameMarkers(data: Data, col: int, marker: Value, i: nat)
    requires Indexable(data.records, col)
    requires marker != NoneLit
    requires i < |data.records| && Cell(data.records[i], col) == marker
    ensures CropSpec(data, col, marker, marker).value.records == []
  {
  }

  /** The crop is always one contiguous run of the input rows, in their order. */
  lemma CropIsContiguous(data: Data, col: int, start: Value, end: Value)
    requires Indexable(data.records, col)
    ensures exists a, b ::
      (0 <= a <= b <= |data.records| && CropSpec(data, col, start, end).value.records == data.records[a..b])
  {
    var rows := data.records;
    var out := CropSpec(data, col, start, end).value.records;
    var a := FirstMatch(rows, col, start).GetOr(0);
    if out == [] {
      assert out == rows[0..0];
    } else {
      assert out == rows[a..a + |out|];
    }
  }

  /** Cropping rows 0..4 of one column on start 1 and end 3 keeps rows 1 and 2. */
  lemma CropExample()
    ensures CropSpec(Data([[Int(0)], [Int(1)], [Int(2)], [Int(3)], [Int(4)]], None, None), 0, Int(1), Int(3)) ==
      Success(Data([[Int(1)], [Int(2)]], None, None))
  {
    var rows := [[Int(0)], [Int(1)], [Int(2)], [Int(3)], [Int(4)]];
    assert Indexable(rows, 0);
    assert IsFirstMatch(rows, 0, Int(1), Some(1));
    assert IsFirstMatch(rows, 0, Int(3), Some(3));
    CropBetween(Data(rows, None, None), 0, Int(1), Int(3), 1, 3);
    assert rows[1..3] == [[Int(1)], [Int(2)]];
  }
}
