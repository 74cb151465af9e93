/** The list of networks to choose from: of each network, the access point with the strongest signal. */
module AccessPoints {
  import opened Common
  import Network
  import Utf8

  const ROW_LIMIT := 256
  const SSID_LIMIT := 32

  datatype Security = Unsupported | Open | Psk

  datatype AccessPoint = AccessPoint(path: string, bssid: string, ssid: string, signal: int, security: Security,
                                     device: string, active: bool)

  /** What a row of the scan says: nothing to list, nonsense, or an access point. */
  datatype Reading = Hidden | Invalid | Found(point: AccessPoint)

  // Reading a row.

  ghost predicate Digit(c: char) { '0' <= c <= '9' }

  ghost predicate HexDigit(c: char) { Digit(c) || 'a' <= c <= 'f' || 'A' <= c <= 'F' }

  ghost predicate DeviceCharacter(c: char) {
    Digit(c) || 'a' <= c <= 'z' || 'A' <= c <= 'Z' || c == '_' || c == '.' || c == '-'
  }

  const PATH := "/org/freedesktop/NetworkManager/AccessPoint/"

  ghost predicate ObjectPath(s: string) {
    PATH < s && forall i :: |PATH| <= i < |s| ==> Digit(s[i])
  }

  /** Six pairs of hexadecimal digits with colons between them. */
  ghost predicate Address(s: string) {
    |s| == 17 && forall i :: 0 <= i < 17 ==> if i % 3 == 2 then s[i] == ':' else HexDigit(s[i])
  }

  ghost predicate Device(s: string) {
    1 <= |s| <= 15 && forall c :: c in s ==> DeviceCharacter(c)
  }

  ghost function Upper(s: string): string {
    if s == "" then "" else [if 'a' <= s[0] <= 'f' then (s[0] as int - 32) as char else s[0]] + Upper(s[1..])
  }

  ghost function SecurityOf(s: string): Security {
    if s == "" || s == "--" then Open
    else if s in {"WPA1", "WPA2", "WPA1 WPA1", "WPA1 WPA2", "WPA2 WPA1", "WPA2 WPA2"} then Psk
    else Unsupported
  }

  /** One row of seven fields; how a number is written is left to the number reader. */
  ghost function ReadRow(f: seq<string>, number: string -> Option<int>): Reading {
    if |f| != 7 then Invalid
    else if f[2] == "" || f[2] == "--" then Hidden
    else if !ObjectPath(f[0]) || number(f[3]).None? || number(f[3]).value < 0 || number(f[3]).value > 100
            || |Utf8.Encode(f[2])| > 32 || !Address(f[1]) || !Device(f[5])
            || !(f[6] == "" || f[6] == "--" || f[6] == "*") then Invalid
    else Found(AccessPoint(f[0], Upper(f[1]), f[2], number(f[3]).value, SecurityOf(f[4]), f[5], f[6] == "*"))
  }

  /** Letters and digits, and what else may stand among them. */
  method AllAmong(s: string, more: set<char>) returns (all: bool)
    ensures all <==> forall c :: c in s ==> Digit(c) || 'a' <= c <= 'z' || 'A' <= c <= 'Z' || c in more
  {
    for i := 0 to |s|
      invariant forall j :: 0 <= j < i ==>
                  Digit(s[j]) || 'a' <= s[j] <= 'z' || 'A' <= s[j] <= 'Z' || s[j] in more
    {
      var c := s[i];
      if !('0' <= c <= '9' || 'a' <= c <= 'z' || 'A' <= c <= 'Z' || c in more) { return false; }
    }
    return true;
  }

  method IsAddress(s: string) returns (ok: bool)
    ensures ok <==> Address(s)
  {
    if |s| != 17 { return false; }
    for i := 0 to 17
      invariant forall j :: 0 <= j < i ==> if j % 3 == 2 then s[j] == ':' else HexDigit(s[j])
    {
      var c := s[i];
      if i % 3 == 2 {
        if c != ':' { return false; }
      } else if c < '0' || '9' < c < 'A' || 'F' < c < 'a' || 'f' < c {
        return false;
      }
    }
    return true;
  }

  method IsObjectPath(s: string) returns (ok: bool)
    ensures ok <==> ObjectPath(s)
  {
    if !(PATH < s) { return false; }
    for i := |PATH| to |s|
      invariant forall j :: |PATH| <= j < i ==> Digit(s[j])
    {
      if s[i] < '0' || '9' < s[i] { return false; }
    }
    return true;
  }

  method UpperCase(s: string) returns (upper: string)
    ensures upper == Upper(s)
  {
    upper := "";
    for i := |s| downto 0
      invariant upper == Upper(s[i..])
    {
      assert s[i..][0] == s[i] && s[i..][1..] == s[i + 1..];
      var c := s[i];
      if c == 'a' { c := 'A'; } else if c == 'b' { c := 'B'; } else if c == 'c' { c := 'C'; }
      else if c == 'd' { c := 'D'; } else if c == 'e' { c := 'E'; } else if c == 'f' { c := 'F'; }
      upper := [c] + upper;
    }
  }

  /** One or two words WPA1 or WPA2, or nothing. */
  method ReadSecurity(s: string) returns (security: Security)
    ensures security == SecurityOf(s)
  {
    if s == "" || s == "--" { return Open; }
    var one := |s| == 4 || (|s| == 9 && s[4] == ' ' && s[5..8] == "WPA" && (s[8] == '1' || s[8] == '2'));
    if one && s[..3] == "WPA" && (s[3] == '1' || s[3] == '2') {
      OneOrTwo(s);
      return Psk;
    }
    return Unsupported;
  }

  lemma OneOrTwo(s: string)
    requires |s| == 4 || (|s| == 9 && s[4] == ' ' && s[5..8] == "WPA" && (s[8] == '1' || s[8] == '2'))
    requires s[..3] == "WPA" && (s[3] == '1' || s[3] == '2')
    ensures SecurityOf(s) == Psk
  {
    assert s[0] == s[..3][0] && s[1] == s[..3][1] && s[2] == s[..3][2];
    if |s| == 4 {
      assert s == "WPA1" || s == "WPA2";
    } else {
      assert s[5] == s[5..8][0] && s[6] == s[5..8][1] && s[7] == s[5..8][2];
      if s[3] == '1' {
        assert s == "WPA1 WPA1" || s == "WPA1 WPA2";
      } else {
        assert s == "WPA2 WPA1" || s == "WPA2 WPA2";
      }
    }
  }

  /** The tests on one row. */
  method Read(f: seq<string>, number: string -> Option<int>) returns (r: Reading)
    ensures r == ReadRow(f, number)
  {
    if |f| != 7 { return Invalid; }
    if f[2] == "" || f[2] == "--" { return Hidden; }
    var strength := number(f[3]);
    var path := IsObjectPath(f[0]);
    if !path || strength.None? || strength.value < 0 || strength.value > 100 || |Utf8.Encode(f[2])| > SSID_LIMIT {
      return Invalid;
    }
    var address := IsAddress(f[1]);
    var device := AllAmong(f[5], {'_', '.', '-'});
    if !address || !device || f[5] == "" || |f[5]| > 15 || (f[6] != "" && f[6] != "--" && f[6] != "*") {
      return Invalid;
    }
    var bssid := UpperCase(f[1]);
    var security := ReadSecurity(f[4]);
    return Found(AccessPoint(f[0], bssid, f[2], strength.value, security, f[5], f[6] == "*"));
  }

  // Reading all rows.

  /** The access points of the rows that have one, in order; nothing if a row is invalid or a path comes twice. */
  ghost function Readings(rows: seq<seq<string>>, read: seq<string> -> Reading): Option<seq<AccessPoint>> {
    if rows == [] then Some([])
    else
      var last := |rows| - 1;
      match Readings(rows[..last], read)
      case None => None
      case Some(points) =>
        match read(rows[last])
        case Hidden => Some(points)
        case Invalid => None
        case Found(p) => if exists i :: 0 <= i < |points| && points[i].path == p.path then None else Some(points + [p])
  }

  lemma {:induction false} ReadingsFail(rows: seq<seq<string>>, read: seq<string> -> Reading, i: nat)
    requires i <= |rows| && Readings(rows[..i], read).None?
    ensures Readings(rows, read).None?
    decreases |rows| - i
  {
    if i < |rows| {
      assert rows[..i + 1][..i] == rows[..i];
      ReadingsFail(rows, read, i + 1);
    } else {
      assert rows[..i] == rows;
    }
  }

  method ReadAll(rows: seq<seq<string>>, number: string -> Option<int>, ghost read: seq<string> -> Reading)
    returns (r: Option<seq<AccessPoint>>)
    requires forall f :: read(f) == ReadRow(f, number)
    ensures r == Readings(rows, read)
  {
    var points: seq<AccessPoint>, paths: seq<string> := [], [];
    assert rows[..0] == [];
    for i := 0 to |rows|
      invariant Readings(rows[..i], read) == Some(points)
      invariant |paths| == |points| && forall j :: 0 <= j < |points| ==> paths[j] == points[j].path
    {
      assert rows[..i + 1][..i] == rows[..i];
      var reading := Read(rows[i], number);
      assert reading == read(rows[i]);
      match reading
      case Hidden =>
      case Invalid =>
        ReadingsFail(rows, read, i + 1);
        return None;
      case Found(p) =>
        if p.path in paths {
          ReadingsFail(rows, read, i + 1);
          return None;
        }
        paths, points := paths + [p.path], points + [p];
    }
    assert rows[..|rows|] == rows;
    return Some(points);
  }

  // The strongest access point of each network.

  /** What makes two access points the same network to the user. */
  ghost predicate SameNetwork(a: AccessPoint, b: AccessPoint) {
    a.ssid == b.ssid && a.security == b.security && a.device == b.device
  }

  function Word(s: Security): string {
    match s
    case Unsupported => "unsupported"
    case Open => "open"
    case Psk => "psk"
  }

  function Key(a: AccessPoint): string {
    Join([a.ssid, Word(a.security), a.device], '\0')
  }

  ghost predicate NoNul(a: AccessPoint) {
    '\0' !in a.ssid && '\0' !in a.device
  }

  /** Names without NUL characters make the joined key tell networks apart. */
  lemma KeyInjective(a: AccessPoint, b: AccessPoint)
    requires NoNul(a) && NoNul(b)
    ensures Key(a) == Key(b) <==> SameNetwork(a, b)
  {
    var p, q := [a.ssid, Word(a.security), a.device], [b.ssid, Word(b.security), b.device];
    WordsPlain(a.security);
    WordsPlain(b.security);
    SplitJoin(p, '\0');
    SplitJoin(q, '\0');
    if Key(a) == Key(b) {
      assert p[0] == q[0] && p[1] == q[1] && p[2] == q[2];
      WordsDiffer(a.security, b.security);
    }
  }

  lemma WordsPlain(s: Security)
    ensures '\0' !in Word(s)
  {
  }

  lemma WordsDiffer(s: Security, t: Security)
    requires Word(s) == Word(t)
    ensures s == t
  {
    assert |Word(s)| == |Word(t)|;
  }

  /** Position i is listed before position j: a stronger signal, or the same signal found earlier. */
  ghost predicate Ahead(points: seq<AccessPoint>, i: nat, j: nat)
    requires i < |points| && j < |points|
  {
    points[i].signal > points[j].signal || (points[i].signal == points[j].signal && i < j)
  }

  ghost predicate Ranked(points: seq<AccessPoint>, order: seq<nat>) {
    && (forall i :: 0 <= i < |order| ==> order[i] < |points|)
    && (forall i, j :: 0 <= i < j < |order| ==> Ahead(points, order[i], order[j]))
  }

  /** A stable sort by falling signal: every position once, in the order of `Ahead`. */
  method StableSort(points: seq<AccessPoint>) returns (order: seq<nat>)
    ensures Ranked(points, order) && forall k: nat :: k < |points| <==> k in order
  {
    order := [];
    for n := 0 to |points|
      invariant Ranked(points, order) && forall k: nat :: k < n <==> k in order
    {
      var at := PlaceOf(points, order, points[n].signal);
      Insert(points, order, at, n);
      Inserted(order, at, n);
      order := order[..at] + [n] + order[at..];
    }
  }

  /** The place behind every entry that is at least as strong. */
  method PlaceOf(points: seq<AccessPoint>, order: seq<nat>, signal: int) returns (at: nat)
    requires Ranked(points, order)
    ensures at <= |order|
    ensures forall i :: at <= i < |order| ==> points[order[i]].signal < signal
    ensures at > 0 ==> points[order[at - 1]].signal >= signal
  {
    at := |order|;
    while at > 0 && points[order[at - 1]].signal < signal
      invariant 0 <= at <= |order|
      invariant forall i :: at <= i < |order| ==> points[order[i]].signal < signal
    {
      at := at - 1;
    }
  }

  lemma Inserted(order: seq<nat>, at: nat, n: nat)
    requires at <= |order|
    ensures forall k :: k in order[..at] + [n] + order[at..] <==> k in order || k == n
  {
    assert order == order[..at] + order[at..];
  }

  lemma Insert(points: seq<AccessPoint>, order: seq<nat>, at: nat, n: nat)
    requires Ranked(points, order) && at <= |order| && n < |points|
    requires forall k :: k in order ==> k < n
    requires forall i :: at <= i < |order| ==> points[order[i]].signal < points[n].signal
    requires at > 0 ==> points[order[at - 1]].signal >= points[n].signal
    ensures Ranked(points, order[..at] + [n] + order[at..])
  {
    var more := order[..at] + [n] + order[at..];
    forall i | 0 <= i < at ensures Ahead(points, order[i], n) {
      assert order[i] in order;
      if i < at - 1 { assert Ahead(points, order[i], order[at - 1]); }
    }
    forall i, j | 0 <= i < j < |more| ensures Ahead(points, more[i], more[j]) {
      var a, b := if i < at then i else i - 1, if j < at then j else j - 1;
      if i != at && j != at { assert more[i] == order[a] && more[j] == order[b]; }
    }
  }

  /** The entries chosen are one per network, each the first of its network in the order of `Ahead`, and ranked. */
  ghost predicate Strongest(points: seq<AccessPoint>, chosen: seq<nat>) {
    && Ranked(points, chosen)
    && (forall i, j :: 0 <= i < j < |chosen| ==> !SameNetwork(points[chosen[i]], points[chosen[j]]))
    && (forall k: nat :: k < |points| ==> Covered(points, chosen, k))
  }

  /** Position i stands for the network of position k: it is k itself or ahead of it. */
  ghost predicate Covers(points: seq<AccessPoint>, i: nat, k: nat)
    requires i < |points| && k < |points|
  {
    SameNetwork(points[i], points[k]) && (i == k || Ahead(points, i, k))
  }

  /** The network of position k is listed by k itself or by a position ahead of it. */
  ghost predicate Covered(points: seq<AccessPoint>, chosen: seq<nat>, k: nat)
    requires k < |points| && Ranked(points, chosen)
  {
    exists i :: 0 <= i < |chosen| && Covers(points, chosen[i], k)
  }

  /** The choice made from the first n positions of a ranking of all. */
  ghost predicate Picked(points: seq<AccessPoint>, order: seq<nat>, n: nat, chosen: seq<nat>)
    requires n <= |order| && Ranked(points, order)
  {
    && Ranked(points, chosen) && (forall k :: k in chosen ==> k in order[..n])
    && (forall i, j :: 0 <= i < j < |chosen| ==> !SameNetwork(points[chosen[i]], points[chosen[j]]))
    && (forall m :: 0 <= m < n ==> Covered(points, chosen, order[m]))
  }

  lemma ChosenAhead(points: seq<AccessPoint>, order: seq<nat>, n: nat, chosen: seq<nat>)
    requires n < |order| && Ranked(points, order) && Picked(points, order, n, chosen)
    ensures forall i :: 0 <= i < |chosen| ==> Ahead(points, chosen[i], order[n])
  {
    forall i | 0 <= i < |chosen| ensures Ahead(points, chosen[i], order[n]) {
      assert chosen[i] in chosen && chosen[i] in order[..n];
    }
  }

  /** The network of the next position is listed already. */
  lemma Skip(points: seq<AccessPoint>, order: seq<nat>, n: nat, chosen: seq<nat>, i: nat)
    requires n < |order| && Ranked(points, order) && Picked(points, order, n, chosen)
    requires i < |chosen| && SameNetwork(points[chosen[i]], points[order[n]])
    ensures Picked(points, order, n + 1, chosen)
  {
    ChosenAhead(points, order, n, chosen);
    assert Covered(points, chosen, order[n]);
    assert order[..n + 1] == order[..n] + [order[n]];
  }

  /** The next position is the first of its network. */
  lemma Add(points: seq<AccessPoint>, order: seq<nat>, n: nat, chosen: seq<nat>)
    requires n < |order| && Ranked(points, order) && Picked(points, order, n, chosen)
    requires forall i :: 0 <= i < |chosen| ==> !SameNetwork(points[chosen[i]], points[order[n]])
    ensures Picked(points, order, n + 1, chosen + [order[n]])
  {
    var more := chosen + [order[n]];
    ChosenAhead(points, order, n, chosen);
    assert order[..n + 1] == order[..n] + [order[n]];
    assert Ranked(points, more);
    assert more[|chosen|] == order[n];
    assert Covered(points, more, order[n]);
    forall m | 0 <= m < n ensures Covered(points, more, order[m]) {
      StillCovered(points, chosen, more, order[m]);
    }
  }

  ghost predicate At(points: seq<AccessPoint>, chosen: seq<nat>, listed: seq<AccessPoint>) {
    |listed| == |chosen| && forall i :: 0 <= i < |chosen| ==> chosen[i] < |points| && listed[i] == points[chosen[i]]
  }

  /** The entries listed are the strongest of their networks. */
  ghost predicate ListsStrongest(points: seq<AccessPoint>, listed: seq<AccessPoint>) {
    exists chosen :: Strongest(points, chosen) && At(points, chosen, listed)
  }

  /** The first of each key in the sorted list. */
  method Unique(points: seq<AccessPoint>) returns (unique: seq<AccessPoint>)
    requires forall i :: 0 <= i < |points| ==> NoNul(points[i])
    ensures ListsStrongest(points, unique)
  {
    ghost var chosen: seq<nat> := [];
    var order := StableSort(points);
    var seen: seq<string> := [];
    unique := [];
    for n := 0 to |order|
      invariant Picked(points, order, n, chosen) && |seen| == |unique| == |chosen|
      invariant forall i :: 0 <= i < |chosen| ==> unique[i] == points[chosen[i]] && seen[i] == Key(unique[i])
    {
      var p := points[order[n]];
      var listed := Listed(points, seen, chosen, p);
      if listed {
        ghost var i :| 0 <= i < |chosen| && SameNetwork(points[chosen[i]], p);
        Skip(points, order, n, chosen, i);
      } else {
        Add(points, order, n, chosen);
        seen, unique, chosen := seen + [Key(p)], unique + [p], chosen + [order[n]];
      }
    }
    forall k: nat | k < |points| ensures Covered(points, chosen, k) {
      assert k in order;
    }
    assert Strongest(points, chosen) && At(points, chosen, unique);
  }

  method Listed(points: seq<AccessPoint>, seen: seq<string>, ghost chosen: seq<nat>, p: AccessPoint)
    returns (listed: bool)
    requires |seen| == |chosen| && NoNul(p)
    requires forall i :: 0 <= i < |chosen| ==>
               && chosen[i] < |points| && NoNul(points[chosen[i]])
               && seen[i] == Key(points[chosen[i]])
    ensures listed <==> exists i :: 0 <= i < |chosen| && SameNetwork(points[chosen[i]], p)
  {
    forall i | 0 <= i < |chosen| ensures seen[i] == Key(p) <==> SameNetwork(points[chosen[i]], p) {
      KeyInjective(points[chosen[i]], p);
    }
    listed := Key(p) in seen;
    if listed {
      ghost var i :| 0 <= i < |seen| && seen[i] == Key(p);
    }
  }

  lemma StillCovered(points: seq<AccessPoint>, chosen: seq<nat>, more: seq<nat>, k: nat)
    requires k < |points| && Ranked(points, chosen) && Ranked(points, more)
    requires chosen <= more && Covered(points, chosen, k)
    ensures Covered(points, more, k)
  {
    var i :| 0 <= i < |chosen| && Covers(points, chosen[i], k);
    assert more[i] == chosen[i];
  }

  /** A position in one choice is in every other. */
  lemma Forced(points: seq<AccessPoint>, a: seq<nat>, b: seq<nat>, k: nat)
    requires Strongest(points, a) && Strongest(points, b) && k in a
    ensures k in b
  {
    assert k < |points| && Covered(points, b, k);
    var j :| 0 <= j < |b| && Covers(points, b[j], k);
    assert Covered(points, a, b[j]);
    var i :| 0 <= i < |a| && Covers(points, a[i], b[j]);
    var n :| 0 <= n < |a| && a[n] == k;
    assert SameNetwork(points[a[i]], points[a[n]]) && SameNetwork(points[a[n]], points[a[i]]);
    assert i == n;
  }

  /** Two rankings of the same positions are the same. */
  lemma {:induction false} SameRanking(points: seq<AccessPoint>, a: seq<nat>, b: seq<nat>)
    requires Ranked(points, a) && Ranked(points, b) && forall k :: k in a <==> k in b
    ensures a == b
    decreases |a|
  {
    if b != [] {
      assert b[0] in b && b[0] in a;
    }
    if a != [] {
      assert a[0] in a && a[0] in b;
      var i :| 0 <= i < |b| && b[i] == a[0];
      var j :| 0 <= j < |a| && a[j] == b[0];
      assert i > 0 ==> Ahead(points, b[0], b[i]);
      assert j > 0 ==> Ahead(points, a[0], a[j]);
      assert a[0] == b[0];
      forall k ensures k in a[1..] <==> k in b[1..] {
        Others(points, a, k);
        Others(points, b, k);
      }
      assert Ranked(points, a[1..]) && Ranked(points, b[1..]);
      SameRanking(points, a[1..], b[1..]);
      assert a == [a[0]] + a[1..] && b == [b[0]] + b[1..];
    }
  }

  lemma Others(points: seq<AccessPoint>, a: seq<nat>, k: nat)
    requires Ranked(points, a) && a != []
    ensures k in a[1..] <==> k in a && k != a[0]
  {
    if k in a[1..] {
      var i :| 0 <= i < |a| - 1 && a[1..][i] == k;
      assert Ahead(points, a[0], a[i + 1]);
    }
  }

  /** The characterisation leaves no choice: there is one list of strongest access points. */
  lemma StrongestUnique(points: seq<AccessPoint>, a: seq<AccessPoint>, b: seq<AccessPoint>)
    requires ListsStrongest(points, a) && ListsStrongest(points, b)
    ensures a == b
  {
    var p :| Strongest(points, p) && At(points, p, a);
    var q :| Strongest(points, q) && At(points, q, b);
    forall k: nat ensures k in p <==> k in q {
      if k in p { Forced(points, p, q, k); }
      if k in q { Forced(points, q, p, k); }
    }
    SameRanking(points, p, q);
  }

  // The whole reading.

  ghost function Reader(number: string -> Option<int>): seq<string> -> Reading {
    f => ReadRow(f, number)
  }

  /** Names read from a row without control characters contain no NUL. */
  lemma ReadPlain(f: seq<string>, number: string -> Option<int>)
    requires Network.AllPlain(f) && ReadRow(f, number).Found?
    ensures NoNul(ReadRow(f, number).point)
  {
    assert Network.Plain(f[2]) && Network.Plain(f[5]);
    assert Network.Control('\0');
  }

  lemma {:induction false} ReadingsPlain(rows: seq<seq<string>>, number: string -> Option<int>)
    requires forall i :: 0 <= i < |rows| ==> Network.AllPlain(rows[i])
    requires Readings(rows, Reader(number)).Some?
    ensures var points := Readings(rows, Reader(number)).value;
            forall i :: 0 <= i < |points| ==> NoNul(points[i])
  {
    if rows != [] {
      var last := |rows| - 1;
      ReadingsPlain(rows[..last], number);
      assert Network.AllPlain(rows[last]);
      if Reader(number)(rows[last]).Found? { ReadPlain(rows[last], number); }
    }
  }

  /** The access points of the rows that some output consists of. */
  ghost function Points(data: seq<byte>, number: string -> Option<int>): Option<seq<AccessPoint>> {
    match Network.Parsed(data)
    case None => None
    case Some(rows) => if |rows| > 256 then None else Readings(rows, Reader(number))
  }

  /**
   The list shown is, for every network among the valid rows, its strongest access point, the earliest of equals,
   in falling order of signal; anything invalid gives no list.
   */
  method ParseAccessPoints(data: seq<byte>, number: string -> Option<int>) returns (r: Option<seq<AccessPoint>>)
    ensures r.Some? <==> Points(data, number).Some?
    ensures r.Some? ==> ListsStrongest(Points(data, number).value, r.value)
  {
    var rows := Network.ParseRows(data);
    if rows.None? || |rows.value| > ROW_LIMIT { return None; }
    var points := ReadAll(rows.value, number, Reader(number));
    if points.None? { return None; }
    Network.ParseThenPrint(data);
    ReadingsPlain(rows.value, number);
    var unique := Unique(points.value);
    r := Some(unique);
  }
}
