/** The sharing server's other requests: pairing codes, directory pages and download ranges. */
module TransferRequests {
  import opened Common

  // Pairing: at most six wrong codes in any minute.

  const ATTEMPTS := 6
  const WINDOW := 60.0

  ghost predicate Old(moment: real, now: real) { now - moment > 60.0 }

  /** The moments of a history that are not more than a minute old. */
  ghost function Recent(history: seq<real>, now: real): seq<real> {
    if history == [] then []
    else
      var last := |history| - 1;
      Recent(history[..last], now) + if Old(history[last], now) then [] else [history[last]]
  }

  ghost predicate Ascending(s: seq<real>) {
    forall i, j :: 0 <= i < j < |s| ==> s[i] <= s[j]
  }

  /** In an ascending history, what is recent is what remains after the old ones in front. */
  lemma RecentIsSuffix(history: seq<real>, now: real, k: nat)
    requires k <= |history| && Ascending(history)
    requires forall i :: 0 <= i < k ==> Old(history[i], now)
    requires k < |history| ==> !Old(history[k], now)
    ensures Recent(history, now) == history[k..]
  {
    forall i | k <= i < |history| ensures !Old(history[i], now) {
      assert i == k || history[k] <= history[i];
    }
    OldInFront(history, now, k);
  }

  lemma {:induction false} AllOld(history: seq<real>, now: real)
    requires forall i :: 0 <= i < |history| ==> Old(history[i], now)
    ensures Recent(history, now) == []
  {
    if history != [] {
      AllOld(history[..|history| - 1], now);
    }
  }

  lemma {:induction false} OldInFront(history: seq<real>, now: real, k: nat)
    requires k <= |history|
    requires forall i :: 0 <= i < |history| ==> (Old(history[i], now) <==> i < k)
    ensures Recent(history, now) == history[k..]
  {
    if k == |history| {
      AllOld(history, now);
    } else {
      var last := |history| - 1;
      var before := history[..last];
      OldInFront(before, now, k);
      assert before[k..] + [history[last]] == history[k..];
    }
  }

  /** Time only makes fewer moments recent. */
  lemma {:induction false} RecentAgain(history: seq<real>, earlier: real, now: real)
    requires earlier <= now
    ensures Recent(Recent(history, earlier), now) == Recent(history, now)
  {
    if history != [] {
      var last := |history| - 1;
      RecentAgain(history[..last], earlier, now);
      var before := Recent(history[..last], earlier);
      if !Old(history[last], earlier) {
        assert (before + [history[last]])[..|before|] == before;
      } else {
        assert before + [] == before;
      }
    }
  }

  /** Seven successive moments from the i-th on span more than a minute. */
  ghost predicate SpacedAt(history: seq<real>, i: nat)
    requires i + ATTEMPTS < |history|
  {
    Old(history[i], history[i + ATTEMPTS])
  }

  ghost predicate Spaced(history: seq<real>) {
    forall i: nat :: i < |history| - ATTEMPTS ==> SpacedAt(history, i)
  }

  lemma SpacedMore(history: seq<real>, now: real)
    requires Spaced(history) && (|history| >= ATTEMPTS ==> Old(history[|history| - ATTEMPTS], now))
    ensures Spaced(history + [now])
  {
    var more := history + [now];
    forall i: nat | i < |more| - ATTEMPTS ensures SpacedAt(more, i) {
      if i + ATTEMPTS < |history| {
        assert SpacedAt(history, i);
      }
    }
  }

  datatype Answer = Welcome | Wrong | Wait

  class Pairing {
    var attempts: seq<real>
    /** Every wrong code that was looked at, and the latest request of any kind. */
    ghost var history: seq<real>
    ghost var latest: real

    /**
     The bounded queue is the whole history filtered to the last minute, and any seven successive wrong codes
     span more than a minute.
     */
    ghost predicate Valid()
      reads this
    {
      && Ascending(history) && (history != [] ==> history[|history| - 1] <= latest)
      && attempts == Recent(history, latest) && |attempts| <= ATTEMPTS
      && Spaced(history)
    }

    constructor ()
      ensures Valid() && history == []
    {
      attempts, history, latest := [], [], 0.0;
    }

    /** Appends to a queue that never holds more than six. */
    method Append(now: real)
      modifies this`attempts
      ensures attempts == if |old(attempts)| < ATTEMPTS then old(attempts) + [now] else old(attempts)[1..] + [now]
    {
      attempts := (if |attempts| < ATTEMPTS then attempts else attempts[1..]) + [now];
    }

    method DropOld(now: real)
      requires Ascending(attempts)
      modifies this`attempts
      ensures attempts == Recent(old(attempts), now) && |attempts| <= |old(attempts)|
    {
      ghost var before := attempts;
      ghost var k := 0;
      while attempts != [] && now - attempts[0] > WINDOW
        invariant 0 <= k <= |before| && attempts == before[k..]
        invariant forall i :: 0 <= i < k ==> Old(before[i], now)
        decreases |attempts|
      {
        attempts := attempts[1..];
        k := k + 1;
      }
      RecentIsSuffix(before, now, k);
    }

    method Prune(now: real)
      requires Valid() && latest <= now
      modifies this`attempts, this`latest
      ensures Valid() && latest == now && attempts == Recent(history, now)
    {
      RecentAgain(history, latest, now);
      RecentSorted(history, latest);
      DropOld(now);
      assert attempts == Recent(history, now);
      latest := now;
    }

    /** A code is looked at unless six wrong ones came within the last minute; a wrong one is remembered. */
    method Pair(now: real, matches: bool) returns (answer: Answer)
      requires Valid() && latest <= now
      modifies this
      ensures Valid() && latest == now
      ensures answer == if |Recent(old(history), now)| >= 6 then Wait else if matches then Welcome else Wrong
      ensures history == if answer == Wrong then old(history) + [now] else old(history)
    {
      Prune(now);
      if |attempts| >= ATTEMPTS { return Wait; }
      if matches { return Welcome; }
      Remember(now);
      return Wrong;
    }

    method Remember(now: real)
      requires Valid() && latest == now && |attempts| < ATTEMPTS
      modifies this`attempts, this`history
      ensures Valid() && history == old(history) + [now]
    {
      if |history| >= ATTEMPTS { OldEnough(history, now); }
      SpacedMore(history, now);
      RecentMore(history, now);
      Append(now);
      history := history + [now];
    }
  }

  lemma RecentMore(history: seq<real>, now: real)
    ensures Recent(history + [now], now) == Recent(history, now) + [now]
  {
    assert (history + [now])[..|history|] == history;
  }

  lemma {:induction false} RecentSorted(history: seq<real>, now: real)
    requires Ascending(history)
    ensures Ascending(Recent(history, now)) && forall x :: x in Recent(history, now) ==> x in history
  {
    if history != [] {
      var last := |history| - 1;
      var before := Recent(history[..last], now);
      RecentSorted(history[..last], now);
      forall i | 0 <= i < |before| ensures before[i] <= history[last] {
        assert before[i] in before;
        assert before[i] in history[..last];
      }
    }
  }

  /** If fewer than six are recent, the sixth from the end is not. */
  lemma {:induction false} OldEnough(history: seq<real>, now: real)
    requires Ascending(history) && |history| >= ATTEMPTS && |Recent(history, now)| < ATTEMPTS
    ensures Old(history[|history| - ATTEMPTS], now)
  {
    var k := |history| - ATTEMPTS;
    if !Old(history[k], now) {
      AtLeast(history, now, k);
    }
  }

  lemma {:induction false} AtLeast(history: seq<real>, now: real, k: nat)
    requires Ascending(history) && k < |history| && !Old(history[k], now)
    ensures |Recent(history, now)| >= |history| - k
  {
    var last := |history| - 1;
    if k < last {
      AtLeast(history[..last], now, k);
    }
  }

  // Directory listings, page by page.

  const PAGE := 200
  const LISTED := 10000

  datatype Page<T> = Page(rows: seq<T>, next: Option<nat>, limited: bool)

  /** One page from an offset of the entries that are visible, none beyond the listing's limit. */
  method List<T>(visible: seq<T>, offset: nat) returns (page: Page<T>)
    ensures var upper := Least(|visible|, 10_000);
            && page.rows == (if offset < upper then visible[offset..Least(offset + 200, upper)] else [])
            && page.next == (if offset + 200 < upper then Some(offset + 200) else None)
    ensures page.limited <==> |visible| >= 10_000 && offset + 201 >= 10_000
  {
    var rows: seq<T>, count, more, i := [], 0, false, 0;
    while i < |visible|
      invariant 0 <= i == count <= |visible| && count <= LISTED && !more
      invariant rows == if offset < count then visible[offset..count] else []
      invariant |rows| <= PAGE
      decreases |visible| - i
    {
      if count >= LISTED { break; }
      count := count + 1;
      i := i + 1;
      if count <= offset { continue; }
      if |rows| == PAGE {
        more := true;
        break;
      }
      rows := rows + [visible[i - 1]];
    }
    page := Page(rows, if more then Some(offset + |rows|) else None, count >= LISTED);
  }

  /** Following the pages from the first shows every listed entry exactly once, in order. */
  method ListAll<T>(visible: seq<T>) returns (rows: seq<T>)
    ensures rows == visible[..if |visible| <= 10_000 then |visible| else 10_000]
  {
    var upper := Least(|visible|, LISTED);
    var page := List(visible, 0);
    rows := page.rows;
    while page.next.Some?
      invariant page.next.Some? ==> page.next.value == |rows| < upper
      invariant page.next.None? ==> |rows| == upper
      invariant rows == visible[..|rows|] && |rows| <= upper
      decreases upper - |rows|, page.next.Some?
    {
      page := List(visible, page.next.value);
      rows := rows + page.rows;
    }
  }

  // Downloads, whole or in part.

  /** A request for a part: from a first byte to a last one, or to the end. */
  datatype Range = Range(first: nat, last: Option<nat>)

  datatype Part = Part(code: nat, start: nat, count: nat)

  /** Position i of a file of this size is asked for. */
  ghost predicate Asked(size: nat, wanted: Option<Range>, i: nat) {
    i < size && (wanted.Some? ==> wanted.value.first <= i && (wanted.value.last.Some? ==> i <= wanted.value.last.value))
  }

  /** What is sent of a file of this size; nothing if the range cannot be met. `wanted` is absent for the whole. */
  function Chosen(size: nat, wanted: Option<Range>): (part: Option<Part>)
    ensures part.None? <==> wanted.Some? && forall i: nat :: i < size ==> !Asked(size, wanted, i)
    ensures part.Some? ==> forall i: nat :: Asked(size, wanted, i) <==> 0 <= i - part.value.start < part.value.count
    ensures part.Some? ==> part.value.code == (if wanted.Some? then 206 else 200)
    ensures part.Some? ==> part.value.start == if wanted.Some? then wanted.value.first else 0
  {
    if wanted.None? then Some(Part(200, 0, size))
    else if size == 0 then None
    else
      var end := if wanted.value.last.Some? then Least(size - 1, wanted.value.last.value) else size - 1;
      if wanted.value.first > end then
        assert forall i: nat :: i < size ==> !Asked(size, wanted, i);
        None
      else
        assert Asked(size, wanted, wanted.value.first);
        Some(Part(206, wanted.value.first, end - wanted.value.first + 1))
  }

  /** A block of a part. */
  lemma Sliced(file: seq<byte>, start: nat, count: nat, at: nat, size: nat)
    requires start + count <= |file| && at + size <= count
    ensures file[start..start + count][..at + size]
              == file[start..start + count][..at] + file[start + at..start + at + size]
  {
    var chosen, block := file[start..start + count], file[start + at..start + at + size];
    forall k | 0 <= k < at + size ensures chosen[..at + size][k] == (chosen[..at] + block)[k] {
      assert chosen[k] == file[start + k];
    }
  }

  /** Sends the chosen part in blocks; a client or a server that is gone ends it early. */
  method Send(file: seq<byte>, wanted: Option<Range>) returns (sent: seq<byte>, complete: bool, broken: bool)
    ensures complete <==> Chosen(|file|, wanted).Some? && !broken
    ensures var part := Chosen(|file|, wanted);
            && (part.None? ==> !complete && !broken && sent == [])
            && (part.Some? ==> part.value.start + part.value.count <= |file|
                               && sent <= file[part.value.start..part.value.start + part.value.count]
                               && (complete <==> |sent| == part.value.count))
    ensures complete && wanted.Some? ==>
              && sent != [] && sent == file[wanted.value.first..wanted.value.first + |sent|]
              && (wanted.value.last.Some? ==> |sent| <= wanted.value.last.value - wanted.value.first + 1)
  {
    var part := Chosen(|file|, wanted);
    if part.None? { return [], false, false; }
    var start, count := part.value.start, part.value.count;
    sent := [];
    ghost var chosen := file[start..start + count];
    while |sent| < count
      invariant |sent| <= count && sent == chosen[..|sent|]
      decreases count - |sent|
    {
      var gone: bool, block: nat := *, *;
      if gone || block == 0 { return sent, false, true; }
      var at, size := |sent|, Least(block, count - |sent|);
      Sliced(file, start, count, at, size);
      sent := sent + file[start + at..start + at + size];
    }
    complete, broken := true, false;
  }
}
