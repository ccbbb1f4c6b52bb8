/**
 The mutable ONNX auditor: a cursor over the buffer, the varint loop of shifts and ORs, and
 the record loop that updates the header. It is proved against the machine steps of
 OnnxLoop.dfy, whose laws tie them to the records of OnnxRecords.dfy.
 */
module OnnxParser {
  import opened Machine
  import opened Varint
  import opened OnnxRecords
  import opened OnnxLoop

  lemma {:induction false} Pow2Grows(a: nat, b: nat)
    requires a <= b
    ensures Pow2(a) <= Pow2(b)
  {
    if a < b {
      Pow2Grows(a, b - 1);
    }
  }

  /** The first nine groups fit in the word, so the loop's result is still the plain sum. */
  lemma NineGroupsFit(bs: seq<byte>)
    requires |bs| <= 9
    ensures VarSum(bs) < Pow2(7 * |bs|) && VarValue(bs) == VarSum(bs)
  {
    VarSumBound(bs);
    Pow2Grows(7 * |bs|, 63);
    WordIsPow2();
  }

  /** Ten bytes, or all there are, announce another byte: no varint can be read. */
  lemma NoEnd(s: seq<byte>, n: nat)
    requires n <= |s| && (n == 10 || (n < 10 && n == |s|))
    requires forall i :: 0 <= i < n ==> 128 <= s[i]
    ensures ReadVarint(s) == Unreadable(s[n..])
  {
    var m := Announcing(s, 10);
    assert m == n;
  }

  class ONNXParser {
    var header: Header
    var cursor: nat

    constructor ()
      ensures header == NO_HEADER && cursor == 0
    {
      header, cursor := NO_HEADER, 0;
    }

    method Reset()
      modifies this
      ensures header == NO_HEADER && cursor == 0
    {
      header, cursor := NO_HEADER, 0;
    }

    method ReadVarint(buffer: seq<byte>) returns (v: Option<u64>)
      requires cursor <= |buffer|
      modifies this`cursor
      ensures old(cursor) <= cursor <= |buffer|
      ensures match Varint.ReadVarint(buffer[old(cursor)..])
        case Varint(bytes, rest) => v == Some(VarValue(bytes)) && buffer[cursor..] == rest
        case Unreadable(rest) => v == None && buffer[cursor..] == rest
    {
      hide Pow2, Or, Shl64, VarValue, Varint.ReadVarint, VarSum;
      var result: u64 := 0;
      var shift := 0;
      ghost var s := buffer[cursor..];
      ghost var taken: seq<byte> := [];
      NineGroupsFit(taken);
      SumOfNothing();
      while cursor < |buffer|
        invariant old(cursor) <= cursor <= |buffer|
        invariant |taken| == cursor - old(cursor) <= 9
        invariant taken == s[..|taken|]
        invariant forall i :: 0 <= i < |taken| ==> 128 <= taken[i]
        invariant shift == 7 * |taken|
        invariant result == VarSum(taken) && result < Pow2(shift)
      {
        var b := buffer[cursor];
        assert b == s[|taken|];
        cursor := cursor + 1;
        ShiftOr(result, b % 128, shift);
        VarSumSnoc(taken, b);
        result := Or(result, Shl64(b % 128, shift));
        taken := taken + [b];
        ValueOf(taken);
        assert s == taken + s[|taken|..] && s[|taken|..] == buffer[cursor..];
        if b < 128 {
          ReadExact(taken, s[|taken|..]);
          return Some(result);
        }
        shift := shift + 7;
        if shift >= 64 {
          NoEnd(s, |taken|);
          return None;
        }
        NineGroupsFit(taken);
      }
      assert s[|taken|..] == buffer[cursor..];
      NoEnd(s, |taken|);
      return None;
    }

    method ReadLengthDelimitedString(buffer: seq<byte>) returns (v: Option<seq<byte>>)
      requires Addressable(buffer) && cursor <= |buffer|
      modifies this`cursor
      ensures old(cursor) <= cursor <= |buffer|
      ensures match Varint.ReadVarint(buffer[old(cursor)..])
        case Unreadable(rest) => v == None && buffer[cursor..] == rest
        case Varint(len, rest) =>
          if MAX_STRING < VarValue(len) || |rest| < VarValue(len) then v == None && buffer[cursor..] == rest
          else v == Some(rest[..VarValue(len)]) && buffer[cursor..] == rest[VarValue(len)..]
    {
      var len := ReadVarint(buffer);
      if len.None? || len.value > MAX_STRING {
        return None;
      }
      if Add64(cursor, len.value) > |buffer| {
        return None;
      }
      assert buffer[cursor..][..len.value] == buffer[cursor..cursor + len.value];
      assert buffer[cursor..][len.value..] == buffer[cursor + len.value..];
      v := Some(buffer[cursor..cursor + len.value]);
      cursor := cursor + len.value;
    }

    /** Skipping the payload of a length-delimited record. The guard and the cursor are the wrapped
        sum, so the cursor can end up before the payload. */
    method SkipDelimited(buffer: seq<byte>) returns (ok: bool)
      requires Addressable(buffer) && cursor <= |buffer|
      modifies this`cursor
      ensures match Varint.ReadVarint(buffer[old(cursor)..])
        case Unreadable(rest) => !ok && cursor == |buffer| - |rest|
        case Varint(len, rest) =>
          var behind := |buffer| - |rest|;
          var end := Add64(behind, VarValue(len));
          && (ok <==> end <= |buffer|)
          && cursor == if ok then end else behind
    {
      VarintRest(buffer, cursor);
      var len := ReadVarint(buffer);
      if len.None? || Add64(cursor, len.value) > |buffer| {
        return false;
      }
      cursor := Add64(cursor, len.value);
      return true;
    }

    /** The body of the record loop behind a readable tag; Some is the status it returns. */
    method ReadRecord(buffer: seq<byte>, tag: u64) returns (error: Option<Status>)
      requires Addressable(buffer) && cursor <= |buffer|
      modifies this
      ensures match Dispatch(buffer, tag, old(cursor), old(header))
        case Stopped(st, c, h) => error == Some(st) && cursor == c && header == h
        case Running(c, h) => error == None && cursor == c && header == h
    {
      hide Varint.ReadVarint, VarValue;
      VarintRest(buffer, cursor);
      var fieldNumber := (tag / 8) % 0x1_0000_0000;
      var wireType := tag % 8;
      if fieldNumber == 1 && wireType == 0 {
        var val := ReadVarint(buffer);
        if val.None? {
          return Some(ErrOutOfBoundsRead);
        }
        header := header.(irVersion := Signed64(val.value));
      } else if fieldNumber == 2 && wireType == 2 {
        StringIsPayload(buffer, tag, cursor, header);
        var str := ReadLengthDelimitedString(buffer);
        if str.None? {
          return Some(ErrOutOfBoundsRead);
        }
        header := header.(producerName := str.value);
      } else if fieldNumber == 3 && wireType == 2 {
        StringIsPayload(buffer, tag, cursor, header);
        var str := ReadLengthDelimitedString(buffer);
        if str.None? {
          return Some(ErrOutOfBoundsRead);
        }
        header := header.(producerVersion := str.value);
      } else if fieldNumber == 7 && wireType == 2 {
        var ok := SkipDelimited(buffer);
        if !ok {
          return Some(ErrOutOfBoundsRead);
        }
        header := header.(nodeCount := header.nodeCount + 1);
      } else if wireType == 0 {
        var val := ReadVarint(buffer);
        if val.None? {
          return Some(ErrOutOfBoundsRead);
        }
      } else if wireType == 1 {
        if Add64(cursor, 8) > |buffer| {
          return Some(ErrOutOfBoundsRead);
        }
        cursor := cursor + 8;
      } else if wireType == 2 {
        var ok := SkipDelimited(buffer);
        if !ok {
          return Some(ErrOutOfBoundsRead);
        }
      } else if wireType == 5 {
        if Add64(cursor, 4) > |buffer| {
          return Some(ErrOutOfBoundsRead);
        }
        cursor := cursor + 4;
      } else {
        return Some(ErrMalformedHeader);
      }
      return None;
    }

    method ValidateGraphMetadata() returns (status: Status)
      ensures status == Validated(header)
    {
      return if header.nodeCount > MAX_GRAPHS then ErrMalformedHeader else Success;
    }

    /** From any prior state, on every buffer on which the record loop ends at all (see
        TerminatesExactly): the status and fields of the machine run. When no length wraps these
        are the verdict on the buffer as records, the fold of the records, and the cursor behind
        the last byte looked at, which after an unreadable tag of ten bytes need not be the end. */
    method Parse(buffer: seq<byte>) returns (status: Status)
      requires Addressable(buffer) && Terminates(buffer)
      modifies this
      ensures Result(buffer) == Stopped(status, cursor, header)
      ensures NoWrap(buffer) ==>
        && status == Verdict(buffer)
        && header == Fold(NO_HEADER, SplitRecords(buffer).records)
        && (SplitRecords(buffer).Done? ==> cursor == |buffer| - |SplitRecords(buffer).rest|)
    {
      hide Absorb, VarValue, Dispatch, Varint.ReadVarint, NoWrap, SplitRecords, Fold, Verdict;
      if NoWrap(buffer) {
        ReadsAsRecords(buffer);
      }
      Reset();
      ghost var steps := 0;
      if buffer == [] {
        StaysStopped(buffer, 0, 1);
        return ErrMalformedHeader;
      }
      while cursor < |buffer|
        invariant steps <= |buffer| && cursor <= |buffer|
        invariant After(buffer, steps) == Running(cursor, header)
        decreases |buffer| - steps
      {
        VarintRest(buffer, cursor);
        var tag := ReadVarint(buffer);
        if tag.None? {
          StaysStopped(buffer, steps + 1, |buffer| + 1);
          var st := ValidateGraphMetadata();
          return st;
        }
        var error := ReadRecord(buffer, tag.value);
        steps := steps + 1;
        if error.Some? {
          StaysStopped(buffer, steps, |buffer| + 1);
          return error.value;
        }
        assert After(buffer, steps) == Running(cursor, header);
      }
      StaysStopped(buffer, steps + 1, |buffer| + 1);
      status := ValidateGraphMetadata();
    }
  }

  /** The string reader, whose capped length never wraps, moves like any payload. */
  lemma StringIsPayload(buffer: seq<byte>, tag: u64, at: nat, h: Header)
    requires Addressable(buffer) && at <= |buffer| && Capped(tag)
    ensures match Varint.ReadVarint(buffer[at..])
      case Unreadable(rest) => Payload(buffer, tag, at, h) == Stopped(ErrOutOfBoundsRead, |buffer| - |rest|, h)
      case Varint(len, rest) =>
        Payload(buffer, tag, at, h) ==
          if MAX_STRING < VarValue(len) || |rest| < VarValue(len) then Stopped(ErrOutOfBoundsRead, |buffer| - |rest|, h)
          else Running(|buffer| - |rest| + VarValue(len), Absorb(h, tag, Delimited(len, rest[..VarValue(len)])))
  {
    hide Varint.ReadVarint, VarValue, Absorb;
    VarintRest(buffer, at);
    var v := Varint.ReadVarint(buffer[at..]);
    if v.Varint? && VarValue(v.bytes) <= |v.rest| {
      var behind := |buffer| - |v.rest|;
      assert v.rest[..VarValue(v.bytes)] == buffer[behind..behind + VarValue(v.bytes)];
    }
  }

  lemma SumOfNothing()
    ensures VarSum([]) == 0 && Pow2(0) == 1
  {
  }

  lemma ValueOf(bs: seq<byte>)
    ensures VarValue(bs) == VarSum(bs) % WORD
  {
  }
}
