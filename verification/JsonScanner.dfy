/**
 * The brace scanner of internal/alphaess/decoder.go: finds where a JSON object ends without
 * parsing it, by tracking brace depth, string literals and escapes.
 */
module JsonScanner {
  import opened Bytes

  const QUOTE: byte := 0x22
  const BACKSLASH: byte := 0x5c
  const OPEN_BRACE: byte := 0x7b
  const CLOSE_BRACE: byte := 0x7d

  /** What the scanner remembers after some bytes; `Closed` once the first brace has been closed. */
  datatype Scan = Open(depth: int, inString: bool, escaped: bool) | Closed

  const START: Scan := Open(0, false, false)

  /** The scan after one more byte. */
  function ScanByte(s: Scan, b: byte): Scan {
    match s
    case Closed => Closed
    case Open(depth, inString, escaped) =>
      if inString then
        if escaped then Open(depth, true, false)
        else if b == BACKSLASH then Open(depth, true, true)
        else if b == QUOTE then Open(depth, false, escaped)
        else s
      else if b == QUOTE then Open(depth, true, escaped)
      else if b == OPEN_BRACE then Open(depth + 1, false, escaped)
      else if b == CLOSE_BRACE then
        if depth - 1 == 0 then Closed else Open(depth - 1, false, escaped)
      else s
  }

  function Fold(s: Scan, data: Bytes): Scan
    decreases data
  {
    if data == [] then s else Fold(ScanByte(s, data[0]), data[1..])
  }

  /** How many bytes it takes to close the object, if they are all there. */
  function CloseAfter(s: Scan, data: Bytes): (r: Option<nat>)
    ensures r.Some? ==> 0 < r.value <= |data|
    decreases data
  {
    if data == [] then None
    else
      var t := ScanByte(s, data[0]);
      if t.Closed? then Some(1)
      else match CloseAfter(t, data[1..])
           case None => None
           case Some(n) => Some(n + 1)
  }

  /** The length of the JSON object at the front of `data`, if `data` starts with a whole one. */
  function ObjectEnd(data: Bytes): (r: Option<nat>)
    ensures r.Some? ==> 0 < r.value <= |data| && data[0] == OPEN_BRACE
  {
    if data == [] || data[0] != OPEN_BRACE then None else CloseAfter(START, data)
  }

  function Shifted(n: nat, r: Option<nat>): Option<nat> {
    if r.Some? then Some(n + r.value) else None
  }

  /** The loop of the source. */
  method FindJsonObjectEnd(data: Bytes) returns (end: nat, complete: bool)
    ensures complete == ObjectEnd(data).Some?
    ensures end == if complete then ObjectEnd(data).value else 0
  {
    if |data| == 0 || data[0] != OPEN_BRACE {
      return 0, false;
    }
    var depth, inString, escaped := 0, false, false;
    for i := 0 to |data|
      invariant CloseAfter(START, data) == Shifted(i, CloseAfter(Open(depth, inString, escaped), data[i..]))
    {
      var b := data[i];
      assert data[i..][0] == b && data[i..][1..] == data[i + 1..];
      if inString {
        if escaped {
          escaped := false;
          continue;
        }
        if b == BACKSLASH {
          escaped := true;
        } else if b == QUOTE {
          inString := false;
        }
        continue;
      }
      if b == QUOTE {
        inString := true;
      } else if b == OPEN_BRACE {
        depth := depth + 1;
      } else if b == CLOSE_BRACE {
        depth := depth - 1;
        if depth == 0 {
          return i + 1, true;
        }
      }
    }
    return 0, false;
  }

  // ---------------------------------------------------------------- meaning of the scan

  lemma {:induction false} FoldAppend(s: Scan, a: Bytes, b: Bytes)
    ensures Fold(s, a + b) == Fold(Fold(s, a), b)
    decreases a
  {
    if a == [] {
      assert a + b == b;
    } else {
      assert (a + b)[1..] == a[1..] + b;
      FoldAppend(ScanByte(s, a[0]), a[1..], b);
    }
  }

  lemma {:induction false} ClosedStays(data: Bytes)
    ensures Fold(Closed, data) == Closed
  {
    if data != [] {
      ClosedStays(data[1..]);
    }
  }

  /** The end, if any, is the first place where the scan is closed. */
  lemma {:induction false} CloseAfterIsFirst(s: Scan, data: Bytes, k: nat)
    requires s.Open? && k <= |data|
    ensures Fold(s, data[..k]).Closed? <==> CloseAfter(s, data).Some? && CloseAfter(s, data).value <= k
    decreases data
  {
    if k > 0 {
      var t := ScanByte(s, data[0]);
      assert data[..k][1..] == data[1..][..k - 1];
      if t.Closed? {
        ClosedStays(data[1..][..k - 1]);
      } else {
        CloseAfterIsFirst(t, data[1..], k - 1);
      }
    }
  }

  /**
   * `ObjectEnd` returns the minimal brace-balanced prefix: it is `Some(n)` exactly when scanning
   * `n` bytes closes the object and no shorter prefix does.
   */
  lemma ObjectEndIsMinimal(data: Bytes, n: nat)
    requires data != [] && data[0] == OPEN_BRACE
    ensures ObjectEnd(data) == Some(n) <==>
            n <= |data| && Fold(START, data[..n]).Closed? &&
            forall m | 0 <= m < n :: !Fold(START, data[..m]).Closed?
  {
    forall k: nat | k <= |data|
      ensures Fold(START, data[..k]).Closed? <==> ObjectEnd(data).Some? && ObjectEnd(data).value <= k
    {
      CloseAfterIsFirst(START, data, k);
    }
    if ObjectEnd(data).Some? {
      assert Fold(START, data[..ObjectEnd(data).value]).Closed?;
    }
  }

  /** A closed prefix decides the end whatever follows. */
  lemma ObjectEndStable(data: Bytes, more: Bytes)
    requires ObjectEnd(data).Some?
    ensures ObjectEnd(data + more) == ObjectEnd(data)
  {
    var n := ObjectEnd(data).value;
    ObjectEndIsMinimal(data, n);
    assert forall m | 0 <= m <= n :: (data + more)[..m] == data[..m];
    ObjectEndIsMinimal(data + more, n);
  }

  /** An object that is whole after `init + [b]` but open after `init`. */
  lemma ClosedByLastByte(init: Bytes, b: byte, rest: Bytes)
    requires init != [] && init[0] == OPEN_BRACE
    requires Fold(START, init).Open? && Fold(START, init + [b]).Closed?
    ensures ObjectEnd(init + [b] + rest) == Some(|init| + 1)
    ensures forall k: nat | k <= |init| :: ObjectEnd((init + [b])[..k]) == None
  {
    hide Fold, CloseAfter;
    var data := init + [b] + rest;
    forall m: nat | m <= |init|
      ensures Fold(START, data[..m]).Open?
    {
      assert data[..m] == init[..m];
      OpenBefore(init, m);
    }
    assert data[..|init| + 1] == init + [b];
    ObjectEndIsMinimal(data, |init| + 1);
    forall k: nat | k <= |init|
      ensures ObjectEnd((init + [b])[..k]) == None
    {
      var part := (init + [b])[..k];
      assert part == data[..k];
      if part != [] {
        CloseAfterIsFirst(START, part, k);
        assert part[..k] == part;
      }
    }
  }

  /** Before an open scan the scan was open. */
  lemma OpenBefore(data: Bytes, m: nat)
    requires m <= |data| && Fold(START, data).Open?
    ensures Fold(START, data[..m]).Open?
  {
    hide Fold;
    assert data == data[..m] + data[m..];
    FoldAppend(START, data[..m], data[m..]);
    ClosedStays(data[m..]);
  }
}
