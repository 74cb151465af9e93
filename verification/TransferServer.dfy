/** Uploads to the sharing server: many handlers at once, each ending in one new file or in nothing. */
module TransferServer {
  import opened Common
  import Utf8

  const MAX_FILE := 8 * 1024 * 1024 * 1024
  const BLOCK := 64 * 1024
  const RESERVE := 16 * 1024 * 1024
  const TRANSFERS := 2

  // Names.

  predicate ValidPart(p: string) {
    && p != "" && p[0] != '.' && '\\' !in p && ':' !in p && |Utf8.Encode(p)| <= 255
    && forall c :: c in p ==> c as int >= 32 && c as int != 127
  }

  /** The parts of a path below the shared directory, or nothing if the path is not allowed. */
  function Components(path: string): Option<seq<string>> {
    if path == "" then Some([])
    else
      var parts := Split(path, '/');
      if |Utf8.Encode(path)| > 4096 || |parts| > 64 then None
      else if forall i :: 0 <= i < |parts| ==> ValidPart(parts[i]) then Some(parts) else None
  }

  /** Allowed parts spell the path again, and none is hidden, climbs up or contains a separator. */
  lemma ComponentsSpellThePath(path: string)
    requires Components(path).Some? && path != ""
    ensures var parts := Components(path).value;
            && |parts| >= 1 && Join(parts, '/') == path
            && forall i :: 0 <= i < |parts| ==>
                 parts[i] != "." && parts[i] != ".." && parts[i] != "" && '/' !in parts[i]
  {
    JoinSplit(path, '/');
    var parts := Components(path).value;
    forall i | 0 <= i < |parts| ensures parts[i] != "." && parts[i] != ".." && parts[i] != "" {
      assert ValidPart(parts[i]);
    }
  }

  /** A part of a path: not hidden, its characters by their codes, and its length in bytes. */
  ghost predicate ShownPart(part: string) {
    && part != "" && part[0] as int != 46 && |Utf8.Encode(part)| <= 255
    && forall i :: 0 <= i < |part| ==> part[i] as int >= 32 && part[i] as int !in {47, 58, 92, 127}
  }

  /** The paths allowed are exactly those that are made of such parts, and the one without any. */
  lemma ComponentsExactly(path: string, parts: seq<string>)
    ensures Components(path) == Some(parts) <==>
              || (parts == [] && path == "")
              || (&& 1 <= |parts| <= 64 && path == Join(parts, '/') && |Utf8.Encode(path)| <= 4096
                  && forall i :: 0 <= i < |parts| ==> ShownPart(parts[i]))
  {
    JoinSplit(path, '/');
    if Components(path) == Some(parts) && path != "" {
      forall i | 0 <= i < |parts| ensures ShownPart(parts[i]) {
        PartsAgree(parts[i]);
      }
    }
    if 1 <= |parts| && path == Join(parts, '/') && forall i :: 0 <= i < |parts| ==> ShownPart(parts[i]) {
      forall i | 0 <= i < |parts| ensures ValidPart(parts[i]) && '/' !in parts[i] {
        PartsAgree(parts[i]);
      }
      SplitJoin(parts, '/');
      assert path != "" by {
        assert |path| >= |parts[0]|;
      }
    }
  }

  lemma PartsAgree(part: string)
    ensures ShownPart(part) <==> ValidPart(part) && '/' !in part
  {
    if ValidPart(part) && '/' !in part {
      forall i | 0 <= i < |part| ensures part[i] as int >= 32 && part[i] as int !in {47, 58, 92, 127} {
        assert part[i] in part;
      }
    }
  }

  /** An upload may have any name that is one such part. */
  lemma OneNameExactly(name: string)
    ensures OneName(name) <==> ShownPart(name)
  {
    ComponentsExactly(name, [name]);
    if OneName(name) {
      ComponentsExactly(name, Components(name).value);
    }
  }

  /** The name of an upload is a path of exactly one part. */
  predicate OneName(name: string) {
    Components(name).Some? && |Components(name).value| == 1
  }

  const PREFIX := ".jume-upload-"

  /** No upload can be given the name of a temporary file. */
  lemma NeverTemporary(name: string, token: string)
    requires OneName(name)
    ensures name != PREFIX + token
  {
    ComponentsSpellThePath(name);
    var parts := Components(name).value;
    assert ValidPart(parts[0]) && parts[0] == name;
    assert (PREFIX + token)[0] == '.';
  }

  // The shared directory and its uploads.

  /** Where a file is: a visible one by its folder and name, or the temporary file of an upload. */
  datatype Key = Shown(folder: nat, name: string) | Temporary(folder: nat, token: nat)

  type Files = map<Key, seq<byte>>

  datatype Phase =
    | Admitted
    | Looking
    | Measuring
    | Creating
    | Receiving
    | Stored
    | Publishing
    | Linked
    | Replying
    | Cleaning
    | Over(released: bool)

  /**
   An upload: the file it asks for, the length it declares, everything its client will send, and how far the
   handler has come.
   */
  datatype Upload = Upload(target: Key, size: nat, body: seq<byte>, phase: Phase, temporary: Option<Key>,
                           received: nat, published: bool, reply: Option<nat>, failure: Option<nat>)

  predicate Held(u: Upload) {
    !u.phase.Over? || !u.phase.released
  }

  /** The handler's temporary file exists and nobody else's business touches it. */
  ghost predicate Writing(u: Upload) {
    u.phase.Receiving? || u.phase.Stored? || u.phase.Publishing? || u.phase.Linked?
  }

  ghost function Declared(u: Upload): seq<byte> {
    if u.size <= |u.body| then u.body[..u.size] else u.body
  }

  /** What one handler's position says about itself and about the files. */
  ghost predicate Consistent(u: Upload, files: Files) {
    && u.target.Shown? && (u.temporary.Some? ==> u.temporary.value.Temporary?)
    && u.received <= u.size && u.received <= |u.body|
    && (u.phase.Admitted? || u.phase.Looking? || u.phase.Measuring? ==> u.temporary.None? && u.received == 0)
    && (u.phase.Creating? ==> u.temporary.Some? && u.received == 0)
    && (Writing(u) ==>
          u.temporary.Some? && u.temporary.value in files && files[u.temporary.value] == u.body[..u.received])
    && (u.phase.Stored? || u.phase.Publishing? || u.phase.Linked? || u.published ==> u.received == u.size)
    && (u.published ==> u.phase.Linked? || u.phase.Replying? || u.phase.Cleaning? || u.phase.Over?)
    && (u.phase.Linked? || u.phase.Replying? ==> u.published)
    && (u.phase.Over? && u.phase.released ==> u.temporary.Some? ==> u.temporary.value !in files)
    && (u.reply == Some(201) ==> u.published)
    && u.failure != Some(201)
  }

  /**
   What the system and the client make of one step: whether the server is healthy, whether the folder's path is
   allowed, whether the system call failed and for want of space, how much a read or a write takes, and the free space.
   */
  datatype Luck = Luck(healthy: bool, allowed: bool, failed: bool, full: bool, offered: nat, stored: nat, space: nat)

  /** The answer to a failed system call. */
  function Code(full: bool): nat {
    if full then 507 else 403
  }

  /** What a failed system call makes of an upload: it is called off, for want of space with 507. */
  ghost function Failed(u: Upload, full: bool): Upload {
    u.(phase := Cleaning, failure := Some(if full then 507 else 403))
  }

  /** The bytes one read gives: no more than a block, than is still due, or than the client still sends. */
  function Block(u: Upload, offered: nat): (r: nat)
    requires u.received <= u.size && u.received <= |u.body|
    ensures r <= offered && r <= 65536 && u.received + r <= u.size && u.received + r <= |u.body|
    ensures r == offered || r == 65536 || u.received + r == u.size || u.received + r == |u.body|
  {
    Least(Least(offered, BLOCK), Least(u.size - u.received, |u.body| - u.received))
  }

  /** A handler that has just been let in. */
  function Admission(target: Key, size: nat, body: seq<byte>): Upload {
    Upload(target, size, body, Admitted, None, 0, false, None, None)
  }

  ghost function Count(uploads: seq<Upload>): nat {
    if uploads == [] then 0 else Count(uploads[..|uploads| - 1]) + if Held(uploads[|uploads| - 1]) then 1 else 0
  }

  lemma {:induction false} CountUpdate(uploads: seq<Upload>, i: nat, u: Upload)
    requires i < |uploads|
    ensures Count(uploads[i := u]) == Count(uploads) - (if Held(uploads[i]) then 1 else 0) + (if Held(u) then 1 else 0)
  {
    var last := |uploads| - 1;
    if i == last {
      assert uploads[i := u][..last] == uploads[..last];
    } else {
      CountUpdate(uploads[..last], i, u);
      assert uploads[i := u][..last] == uploads[..last][i := u];
    }
  }

  ghost function Changed(before: Files, after: Files): set<Key> {
    set k | k in before.Keys + after.Keys && !(k in before && k in after && after[k] == before[k])
  }

  /** Only the upload's own temporary file and its target may come, go or change. */
  ghost predicate Moves(before: Files, after: Files, u: Upload) {
    && (forall k :: k in before && Some(k) != u.temporary ==> k in after && after[k] == before[k])
    && (forall k :: k in after && k !in before && Some(k) != u.temporary ==>
          k == u.target && u.published && after[k] == Declared(u))
  }

  ghost predicate SameRequest(u: Upload, v: Upload) {
    u.target == v.target && u.size == v.size && u.body == v.body
  }

  ghost predicate AllConsistent(uploads: seq<Upload>, files: Files) {
    forall i :: 0 <= i < |uploads| ==> Consistent(uploads[i], files)
  }

  /** Temporary files are numbered; every number is used once. */
  ghost predicate Numbered(uploads: seq<Upload>, files: Files, tokens: nat) {
    && (forall k :: k in files && k.Temporary? ==> k.token < tokens)
    && (forall i :: 0 <= i < |uploads| && uploads[i].temporary.Some? ==>
          uploads[i].temporary.value.Temporary? && uploads[i].temporary.value.token < tokens)
    && (forall i, j :: 0 <= i < j < |uploads| && uploads[i].temporary.Some? ==>
          uploads[i].temporary != uploads[j].temporary)
  }

  /** Whatever was published is there, unless something else has changed it. */
  ghost predicate AllProvided(uploads: seq<Upload>, files: Files, touched: set<Key>) {
    forall i :: 0 <= i < |uploads| && uploads[i].published && uploads[i].target !in touched ==>
      uploads[i].target in files && files[uploads[i].target] == Declared(uploads[i])
  }

  /** Of several uploads to one name, at most one is published, unless something else has changed the file. */
  ghost predicate Once(uploads: seq<Upload>, touched: set<Key>) {
    forall i, j :: 0 <= i < j < |uploads| && uploads[i].published && uploads[j].published ==>
      uploads[i].target != uploads[j].target || uploads[i].target in touched
  }

  /** What another handler's step leaves of this one's files. */
  lemma Undisturbed(v: Upload, u: Upload, before: Files, after: Files)
    requires Consistent(v, before) && Moves(before, after, u) && u.target.Shown?
    requires v.temporary.Some? ==> v.temporary != u.temporary
    ensures Consistent(v, after)
  {
  }

  lemma Advance(uploads: seq<Upload>, more: seq<Upload>, i: nat, u: Upload, before: Files, after: Files,
                touched: set<Key>)
    requires i < |uploads| && more == uploads[i := u]
    requires SameRequest(u, uploads[i]) && Consistent(u, after) && Moves(before, after, u)
    requires AllConsistent(uploads, before) && AllProvided(uploads, before, touched) && Once(uploads, touched)
    requires forall j :: 0 <= j < |uploads| && j != i && uploads[j].temporary.Some? ==>
                           uploads[j].temporary != u.temporary
    requires u.published && !uploads[i].published ==>
               u.target !in before && u.target in after && after[u.target] == Declared(u)
    requires uploads[i].published ==> u.published
    ensures AllConsistent(more, after) && AllProvided(more, after, touched) && Once(more, touched)
  {
    forall j | 0 <= j < |more| ensures Consistent(more[j], after) {
      if j != i { Undisturbed(uploads[j], u, before, after); }
    }
    forall j | 0 <= j < |more| && more[j].published && more[j].target !in touched
      ensures more[j].target in after && after[more[j].target] == Declared(more[j])
    {
      assert Consistent(more[j], after);
    }
    forall j, k | 0 <= j < k < |more| && more[j].published && more[k].published
      ensures more[j].target != more[k].target || more[j].target in touched
    {
      assert uploads[j].published ==> uploads[j].target in touched || uploads[j].target in before;
      assert uploads[k].published ==> uploads[k].target in touched || uploads[k].target in before;
    }
  }

  lemma AdvanceNumbers(uploads: seq<Upload>, more: seq<Upload>, i: nat, u: Upload, before: Files, after: Files,
                       tokens: nat)
    requires i < |uploads| && more == uploads[i := u]
    requires Consistent(u, after) && Moves(before, after, u) && Numbered(uploads, before, tokens)
    requires u.temporary == uploads[i].temporary || (uploads[i].temporary.None? && u.temporary.value.token == tokens)
    ensures Numbered(more, after, if u.temporary == uploads[i].temporary then tokens else tokens + 1)
  {
    forall j, k | 0 <= j < k < |more| && more[j].temporary.Some? ensures more[j].temporary != more[k].temporary {
      assert uploads[j].temporary.Some? ==> uploads[j].temporary != uploads[k].temporary;
    }
    forall k | k in after && k.Temporary?
      ensures k.token < if u.temporary == uploads[i].temporary then tokens else tokens + 1
    {
      assert k in before || Some(k) == u.temporary;
    }
  }

  /** A handler that has just been let in changes nothing for the others. */
  lemma Joined(uploads: seq<Upload>, u: Upload, more: seq<Upload>, files: Files, tokens: nat, touched: set<Key>)
    requires more == uploads + [u]
    requires u.target.Shown? && u == Admission(u.target, u.size, u.body)
    requires AllConsistent(uploads, files) && Numbered(uploads, files, tokens)
    requires AllProvided(uploads, files, touched) && Once(uploads, touched)
    ensures AllConsistent(more, files) && Numbered(more, files, tokens)
    ensures AllProvided(more, files, touched) && Once(more, touched) && Count(more) == Count(uploads) + 1
  {
    assert more[..|uploads|] == uploads;
    assert Consistent(u, files);
  }

  class Server {
    var files: Files
    var permits: nat
    var uploads: seq<Upload>
    /** Downloads under way; they take the same permits. */
    var downloads: nat
    var tokens: nat
    /** Whether the system can rename without overwriting; if not, files are published by link and unlink. */
    const renames: bool
    /** The visible files that something other than an upload has changed. */
    ghost var touched: set<Key>

    constructor (renames: bool, files: Files)
      requires forall k :: k in files ==> k.Shown?
      ensures Valid() && this.files == files && uploads == [] && touched == {} && this.renames == renames
      ensures downloads == 0 && permits == TRANSFERS
    {
      this.renames, this.files, permits, uploads, tokens, touched := renames, files, TRANSFERS, [], 0, {};
      downloads := 0;
    }

    ghost predicate Valid()
      reads this
    {
      && permits + Count(uploads) + downloads == TRANSFERS
      && AllConsistent(uploads, files) && Numbered(uploads, files, tokens)
      && AllProvided(uploads, files, touched) && Once(uploads, touched)
    }

    /** One handler moves on; everything else is as it was. */
    method Put(i: nat, u: Upload, after: Files)
      requires Valid() && i < |uploads| && SameRequest(u, uploads[i])
      requires Held(uploads[i]) && Consistent(u, after) && Moves(files, after, u)
      requires u.temporary == uploads[i].temporary || (uploads[i].temporary.None? && u.temporary.value.token == tokens)
      requires u.published && !uploads[i].published ==>
                 u.target !in files && u.target in after && after[u.target] == Declared(u)
      requires uploads[i].published ==> u.published
      modifies this`files, this`uploads, this`tokens, this`permits
      ensures Valid() && files == after && uploads == old(uploads)[i := u]
      ensures permits == old(permits) + if Held(u) then 0 else 1
    {
      ghost var was, before, drawn := uploads, files, tokens;
      tokens := if u.temporary == uploads[i].temporary then tokens else tokens + 1;
      permits := if Held(u) then permits else permits + 1;
      files, uploads := after, uploads[i := u];
      CountUpdate(was, i, u);
      Advance(was, uploads, i, u, before, after, touched);
      AdvanceNumbers(was, uploads, i, u, before, after, drawn);
    }

    /** A request to upload: refused at once, or admitted if a transfer is free. */
    method Arrive(folder: nat, name: string, declared: Option<nat>, body: seq<byte>) returns (refusal: Option<nat>)
      requires Valid()
      modifies this`permits, this`uploads
      ensures Valid()
      ensures refusal == if declared.None? || declared.value > 8_589_934_592 || !ShownPart(name) then Some(400)
                         else if Count(old(uploads)) + downloads == 2 then Some(429) else None
      ensures refusal.Some? ==> uploads == old(uploads)
      ensures refusal.None? ==>
                uploads == old(uploads)
                           + [Upload(Shown(folder, name), declared.value, body, Admitted, None, 0, false, None, None)]
    {
      OneNameExactly(name);
      if declared.None? || declared.value > MAX_FILE { return Some(400); }
      if !OneName(name) { return Some(400); }
      if permits == 0 { return Some(429); }
      Admit(Admission(Shown(folder, name), declared.value, body));
      return None;
    }

    method Admit(u: Upload)
      requires Valid() && permits > 0 && u.target.Shown? && u == Admission(u.target, u.size, u.body)
      modifies this`permits, this`uploads
      ensures Valid() && uploads == old(uploads) + [u] && permits == old(permits) - 1
    {
      ghost var before := uploads;
      permits, uploads := permits - 1, uploads + [u];
      Joined(before, u, uploads, files, tokens, touched);
    }

    /** A request to download: refused at once, or let in if a transfer is free. */
    method ArriveDownload(path: string) returns (refusal: Option<nat>)
      requires Valid()
      modifies this`permits, this`downloads
      ensures Valid()
      ensures refusal == if path == "" || Components(path).None? then Some(400)
                         else if Count(uploads) + old(downloads) == 2 then Some(429) else None
      ensures downloads == old(downloads) + if refusal.None? then 1 else 0
    {
      if path == "" || Components(path).None? { return Some(400); }
      if permits == 0 { return Some(429); }
      permits, downloads := permits - 1, downloads + 1;
      return None;
    }

    /** However a download ends, its permit returns. */
    method EndDownload()
      requires Valid() && downloads > 0
      modifies this`permits, this`downloads
      ensures Valid() && downloads == old(downloads) - 1 && permits == old(permits) + 1
    {
      permits, downloads := permits + 1, downloads - 1;
    }

    /** What one step of one handler may do. */
    twostate predicate Stepped(i: nat)
      reads this
    {
      && |uploads| == |old(uploads)| && i < |uploads| && uploads == old(uploads)[i := uploads[i]]
      && SameRequest(uploads[i], old(uploads[i])) && (old(uploads[i]).published ==> uploads[i].published)
      && permits == old(permits) + (if Held(uploads[i]) then 0 else 1)
      && Moves(old(files), files, uploads[i])
    }

    /** The handler gives up with the reply its exception would get; what it has is then cleaned away. */
    method GiveUp(i: nat, code: Option<nat>)
      requires Valid() && i < |uploads| && Held(uploads[i]) && !uploads[i].phase.Over? && code != Some(201)
      modifies this`files, this`uploads, this`tokens, this`permits
      ensures Valid() && Stepped(i) && files == old(files)
      ensures uploads[i] == old(uploads[i]).(phase := Cleaning, failure := code)
    {
      Put(i, uploads[i].(phase := Cleaning, failure := code), files);
    }

    method OpenFolder(i: nat, allowed: bool, failed: bool, full: bool)
      requires Valid() && i < |uploads| && uploads[i].phase.Admitted?
      modifies this`files, this`uploads, this`tokens, this`permits
      ensures Valid() && Stepped(i) && files == old(files)
      ensures uploads[i] == if !allowed then old(uploads[i]).(phase := Cleaning, failure := Some(400))
                            else if failed then Failed(old(uploads[i]), full)
                            else old(uploads[i]).(phase := Looking)
    {
      if !allowed {
        GiveUp(i, Some(400));
      } else if failed {
        GiveUp(i, Some(Code(full)));
      } else {
        Put(i, uploads[i].(phase := Looking), files);
      }
    }

    /** A name that exists is refused with 409 before anything is received. */
    method Look(i: nat, failed: bool, full: bool)
      requires Valid() && i < |uploads| && uploads[i].phase.Looking?
      modifies this`files, this`uploads, this`tokens, this`permits
      ensures Valid() && Stepped(i) && files == old(files)
      ensures uploads[i] == if failed then Failed(old(uploads[i]), full)
                            else if uploads[i].target in files then
                              old(uploads[i]).(phase := Cleaning, failure := Some(409))
                            else old(uploads[i]).(phase := Measuring)
    {
      if failed {
        GiveUp(i, Some(Code(full)));
      } else if uploads[i].target in files {
        GiveUp(i, Some(409));
      } else {
        Put(i, uploads[i].(phase := Measuring), files);
      }
    }

    /** The declared length must leave the reserve free; a temporary name is drawn. */
    method Measure(i: nat, failed: bool, full: bool, space: nat)
      requires Valid() && i < |uploads| && uploads[i].phase.Measuring?
      modifies this`files, this`uploads, this`tokens, this`permits
      ensures Valid() && Stepped(i) && files == old(files)
      ensures uploads[i] == if failed then Failed(old(uploads[i]), full)
                            else if uploads[i].size + 16_777_216 > space then
                              old(uploads[i]).(phase := Cleaning, reply := Some(507))
                            else old(uploads[i]).(phase := Creating, temporary := uploads[i].temporary)
      ensures uploads[i].phase.Creating? ==> uploads[i].temporary.Some? && uploads[i].temporary.value.Temporary?
                                             && uploads[i].temporary.value !in files
    {
      var u := uploads[i];
      if failed {
        GiveUp(i, Some(Code(full)));
      } else if u.size + RESERVE > space {
        Put(i, u.(phase := Cleaning, reply := Some(507)), files);
      } else {
        Put(i, u.(phase := Creating, temporary := Some(Temporary(u.target.folder, tokens))), files);
      }
    }

    method Create(i: nat, failed: bool, full: bool)
      requires Valid() && i < |uploads| && uploads[i].phase.Creating?
      modifies this`files, this`uploads, this`tokens, this`permits
      ensures Valid() && Stepped(i) && uploads[i].temporary.Some?
      ensures uploads[i] == if failed then Failed(old(uploads[i]), full)
                            else old(uploads[i]).(phase := Receiving)
      ensures files == if failed then old(files) else old(files)[uploads[i].temporary.value := []]
    {
      var u := uploads[i];
      if failed {
        GiveUp(i, Some(Code(full)));
      } else {
        Put(i, u.(phase := Receiving), files[u.temporary.value := []]);
      }
    }

    /**
     One block from the client, never more than is still due; a client or a server that is gone ends it. `offered` is
     what the read would give at most; a failed write may have stored a part of the block.
     */
    method Receive(i: nat, healthy: bool, failed: bool, full: bool, offered: nat, stored: nat)
      requires Valid() && i < |uploads| && uploads[i].phase.Receiving?
      modifies this`files, this`uploads, this`tokens, this`permits
      ensures Valid() && Stepped(i) && uploads[i].temporary == old(uploads[i]).temporary
      ensures var was, count := old(uploads[i]), Block(old(uploads[i]), offered);
              && (was.received == was.size ==>
                    && files == old(files)
                    && uploads[i] == (if failed then Failed(was, full)
                                      else was.(phase := Stored)))
              && (was.received < was.size && (!healthy || count == 0) ==>
                    uploads[i] == was.(phase := Cleaning, failure := None) && files == old(files))
              && (was.received < was.size && healthy && count > 0 && failed ==>
                    uploads[i] == Failed(was, full) && files.Keys == old(files).Keys)
              && (was.received < was.size && healthy && count > 0 && !failed ==>
                    uploads[i] == was.(received := was.received + count) && files.Keys == old(files).Keys)
    {
      var u := uploads[i];
      var temp, count := u.temporary.value, Block(u, offered);
      if u.received == u.size {
        if failed { GiveUp(i, Some(Code(full))); } else { Put(i, u.(phase := Stored), files); }
      } else if !healthy || count == 0 {
        GiveUp(i, None);
      } else if failed {
        var part := u.body[u.received..u.received + if stored <= count then stored else count];
        Put(i, u.(phase := Cleaning, failure := Some(Code(full))), files[temp := files[temp] + part]);
      } else {
        assert u.body[..u.received + count] == u.body[..u.received] + u.body[u.received..u.received + count];
        Put(i, u.(received := u.received + count), files[temp := files[temp] + u.body[u.received..u.received + count]]);
      }
    }

    /** Publication: the temporary file takes its name in one step, and never the name of another file. */
    method Publish(i: nat, failed: bool, full: bool)
      requires Valid() && i < |uploads| && uploads[i].phase.Publishing?
      modifies this`files, this`uploads, this`tokens, this`permits
      ensures Valid() && Stepped(i) && uploads[i].temporary == old(uploads[i]).temporary
      ensures uploads[i].published <==> !failed && uploads[i].target !in old(files)
      ensures uploads[i].published ==>
                && uploads[i].temporary.Some? && uploads[i].target in files
                && uploads[i].phase == (if renames then Replying else Linked)
                && files == (if renames then old(files) - {uploads[i].temporary.value} else old(files))
                              [uploads[i].target := Declared(uploads[i])]
      ensures !uploads[i].published ==>
                && files == old(files)
                && uploads[i] == if failed then Failed(old(uploads[i]), full)
                                 else old(uploads[i]).(phase := Cleaning, failure := Some(409))
      ensures uploads[i].reply == old(uploads[i]).reply
      ensures uploads[i].published ==> uploads[i].failure == old(uploads[i]).failure
    {
      var u := uploads[i];
      var temp := u.temporary.value;
      if failed {
        GiveUp(i, Some(Code(full)));
      } else if u.target in files {
        GiveUp(i, Some(409));
      } else if renames {
        Put(i, u.(phase := Replying, published := true), (files - {temp})[u.target := files[temp]]);
      } else {
        Put(i, u.(phase := Linked, published := true), files[u.target := files[temp]]);
      }
    }

    /** The last look at the server's health before the publication. */
    method Ready(i: nat, healthy: bool)
      requires Valid() && i < |uploads| && uploads[i].phase.Stored?
      modifies this`files, this`uploads, this`tokens, this`permits
      ensures Valid() && Stepped(i) && files == old(files)
      ensures uploads[i] == if healthy then old(uploads[i]).(phase := Publishing)
                            else old(uploads[i]).(phase := Cleaning, failure := None)
    {
      if healthy { Put(i, uploads[i].(phase := Publishing), files); } else { GiveUp(i, None); }
    }

    /** Published by a link, the file loses its temporary name. */
    method Unlink(i: nat, failed: bool, full: bool)
      requires Valid() && i < |uploads| && uploads[i].phase.Linked?
      modifies this`files, this`uploads, this`tokens, this`permits
      ensures Valid() && Stepped(i) && uploads[i].temporary.Some?
      ensures uploads[i] == if failed then Failed(old(uploads[i]), full)
                            else old(uploads[i]).(phase := Replying)
      ensures files == if failed then old(files) else old(files) - {uploads[i].temporary.value}
    {
      var u := uploads[i];
      if failed {
        GiveUp(i, Some(Code(full)));
      } else {
        Put(i, u.(phase := Replying), files - {u.temporary.value});
      }
    }

    method Answer(i: nat)
      requires Valid() && i < |uploads| && uploads[i].phase.Replying?
      modifies this`files, this`uploads, this`tokens, this`permits
      ensures Valid() && Stepped(i) && files == old(files)
      ensures uploads[i] == old(uploads[i]).(phase := Cleaning, reply := Some(201)) && uploads[i].published
    {
      Put(i, uploads[i].(phase := Cleaning, reply := Some(201)), files);
    }

    /**
     The end of every handler: its temporary file goes and its permit returns. If the file cannot be removed, the
     exception passes the release by, and the permit is lost with the file left behind.
     */
    method CleanUp(i: nat, stuck: bool, full: bool)
      requires Valid() && i < |uploads| && uploads[i].phase.Cleaning?
      modifies this`files, this`uploads, this`tokens, this`permits
      ensures Valid() && Stepped(i) && uploads[i].phase == Over(!(stuck && uploads[i].temporary.Some?))
      ensures uploads[i].published == old(uploads[i]).published
      ensures files == if stuck || uploads[i].temporary.None? then old(files)
                       else old(files) - {uploads[i].temporary.value}
      ensures uploads[i].temporary == old(uploads[i]).temporary
      ensures uploads[i].reply == if old(uploads[i]).reply.Some? then old(uploads[i]).reply
                                  else if stuck && uploads[i].temporary.Some? then Some(if full then 507 else 403)
                                  else old(uploads[i]).failure
    {
      var u := uploads[i];
      var lost := stuck && u.temporary.Some?;
      var reply := if u.reply.Some? then u.reply else if lost then Some(Code(full)) else u.failure;
      var after := if !lost && u.temporary.Some? then files - {u.temporary.value} else files;
      Put(i, u.(phase := Over(!lost), reply := reply), after);
    }

    /** Something else changes visible files: programs on the device, or the user. */
    method Outside(shown: Files)
      requires Valid()
      modifies this`files, this`touched
      ensures Valid() && touched == old(touched) + Changed(old(files), files)
      ensures forall k :: k in files && k.Shown? <==> k in shown && k.Shown?
      ensures forall k :: k in shown && k.Shown? ==> files[k] == shown[k]
    {
      var after := map k | k in files.Keys + shown.Keys && (if k.Temporary? then k in files else k in shown) ::
                     if k.Temporary? then files[k] else shown[k];
      touched := touched + Changed(files, after);
      files := after;
    }

    /** Any handler's next step, with what the system and the client make of it. */
    method Step(i: nat, luck: Luck)
      requires Valid() && i < |uploads| && !uploads[i].phase.Over?
      modifies this`files, this`uploads, this`tokens, this`permits
      ensures Valid() && Stepped(i)
    {
      match uploads[i].phase
      case Admitted => OpenFolder(i, luck.allowed, luck.failed, luck.full);
      case Looking => Look(i, luck.failed, luck.full);
      case Measuring => Measure(i, luck.failed, luck.full, luck.space);
      case Creating => Create(i, luck.failed, luck.full);
      case Receiving => Receive(i, luck.healthy, luck.failed, luck.full, luck.offered, luck.stored);
      case Stored => Ready(i, luck.healthy);
      case Publishing => Publish(i, luck.failed, luck.full);
      case Linked => Unlink(i, luck.failed, luck.full);
      case Replying => Answer(i);
      case Cleaning => CleanUp(i, luck.failed, luck.full);
    }
  }

  datatype Move =
    | Request(folder: nat, name: string, declared: Option<nat>, body: seq<byte>)
    | Proceed(handler: nat, luck: Luck)
    | Change(shown: map<Key, seq<byte>>)
    | Fetch(path: string)
    | FetchEnded

  /** What was published stays on record. */
  ghost predicate Remembered(before: seq<Upload>, after: seq<Upload>) {
    |before| <= |after|
    && forall i :: 0 <= i < |before| && before[i].published ==> after[i].published && SameRequest(after[i], before[i])
  }

  /** The file is what some upload declared and published. */
  ghost predicate Provided(uploads: seq<Upload>, files: Files, k: Key) {
    k in files
    && exists i ::
         0 <= i < |uploads| && uploads[i].published && uploads[i].target == k && files[k] == Declared(uploads[i])
  }

  method HandlerTurn(s: Server, i: nat, luck: Luck)
    requires s.Valid() && i < |s.uploads| && !s.uploads[i].phase.Over?
    modifies s`files, s`uploads, s`tokens, s`permits
    ensures s.Valid() && Remembered(old(s.uploads), s.uploads)
    ensures forall k :: k in old(s.files) && k.Shown? ==> k in s.files && s.files[k] == old(s.files)[k]
    ensures forall k :: k in s.files && k.Shown? && k !in old(s.files) ==> Provided(s.uploads, s.files, k)
  {
    s.Step(i, luck);
    assert Consistent(s.uploads[i], s.files);
  }

  method Turn(s: Server, move: Move)
    requires s.Valid()
    modifies s
    ensures s.Valid() && old(s.touched) <= s.touched && Remembered(old(s.uploads), s.uploads)
    ensures forall k :: k in old(s.files) && k.Shown? && k !in s.touched ==>
              k in s.files && s.files[k] == old(s.files)[k]
    ensures forall k :: k in s.files && k.Shown? && k !in old(s.files) && k !in s.touched ==>
              Provided(s.uploads, s.files, k)
  {
    match move
    case Request(folder, name, declared, body) => var _ := s.Arrive(folder, name, declared, body);
    case Proceed(i, luck) => if i < |s.uploads| && !s.uploads[i].phase.Over? { HandlerTurn(s, i, luck); }
    case Change(shown) => s.Outside(shown);
    case Fetch(path) => var _ := s.ArriveDownload(path);
    case FetchEnded => if s.downloads > 0 { s.EndDownload(); }
  }

  lemma StillProvided(before: seq<Upload>, after: seq<Upload>, files: Files, more: Files, k: Key)
    requires Provided(before, files, k) && Remembered(before, after) && k in more && more[k] == files[k]
    ensures Provided(after, more, k)
  {
    var i :| 0 <= i < |before| && before[i].published && before[i].target == k && files[k] == Declared(before[i]);
    assert after[i].published;
  }

  /**
   In every interleaving of any number of uploads, with disconnects, failures and changes from outside: a visible
   file that nothing else changed stays as it was; a visible file that appears is one upload's declared bytes.
   */
  method Run(renames: bool, initial: Files, moves: seq<Move>) returns (s: Server)
    requires forall k :: k in initial ==> k.Shown?
    ensures s.Valid()
    ensures forall k :: k in initial && k !in s.touched ==> k in s.files && s.files[k] == initial[k]
    ensures forall k :: k in s.files && k.Shown? && k !in initial && k !in s.touched ==> Provided(s.uploads, s.files, k)
  {
    s := new Server(renames, initial);
    for n := 0 to |moves|
      invariant s.Valid() && fresh(s)
      invariant forall k :: k in initial && k !in s.touched ==> k in s.files && s.files[k] == initial[k]
      invariant forall k :: k in s.files && k.Shown? && k !in initial && k !in s.touched ==>
                  Provided(s.uploads, s.files, k)
    {
      ghost var files, uploads := s.files, s.uploads;
      Turn(s, moves[n]);
      forall k | k in s.files && k.Shown? && k !in initial && k !in s.touched ensures Provided(s.uploads, s.files, k) {
        if k in files { StillProvided(uploads, s.uploads, files, s.files, k); }
      }
    }
  }

  /** The reply an upload gets when nothing interferes. */
  ghost function Deserved(u: Upload, files: Files, space: nat): Option<nat> {
    if u.target in files then Some(409)
    else if u.size + 16_777_216 > space then Some(507)
    else if |u.body| < u.size then None
    else Some(201)
  }

  /**
   Left to itself, an upload that has been let in ends with its permit returned and no trace but its file: it is
   published, and answered with 201, exactly if its name is free, the space suffices and the client sends it all.
   */
  method Serve(s: Server, i: nat, space: nat)
    requires s.Valid() && i < |s.uploads| && s.uploads[i].phase.Admitted?
    requires s.uploads[i] == Admission(s.uploads[i].target, s.uploads[i].size, s.uploads[i].body)
    modifies s
    ensures s.Valid() && |s.uploads| == |old(s.uploads)| && s.uploads[i].phase == Over(true)
    ensures s.permits == old(s.permits) + 1
    ensures s.uploads[i].reply == Deserved(old(s.uploads[i]), old(s.files), space)
    ensures s.files == if s.uploads[i].reply != Some(201) then old(s.files)
                       else old(s.files)[s.uploads[i].target := Declared(s.uploads[i])]
  {
    ghost var was, files, permits := s.uploads[i], s.files, s.permits;
    s.OpenFolder(i, true, false, false);
    s.Look(i, false, false);
    if s.uploads[i].phase.Measuring? {
      s.Measure(i, false, false, space);
      if s.uploads[i].phase.Creating? {
        ServeBody(s, i, was, s.uploads[i].temporary.value);
      }
    }
    s.CleanUp(i, false, false);
  }

  /** An upload that is written to its temporary file, with all other files as they were. */
  ghost predicate Alone(s: Server, i: nat, was: Upload, base: Files, temp: Key)
    reads s
  {
    && s.Valid() && i < |s.uploads| && temp !in base && temp in s.files && s.files - {temp} == base
    && s.uploads[i].received <= s.uploads[i].size
    && s.uploads[i] == was.(phase := s.uploads[i].phase, temporary := Some(temp), received := s.uploads[i].received)
  }

  /** Everything the client sends is received, and it is enough or not. */
  method ReceiveAll(s: Server, i: nat, ghost was: Upload, ghost base: Files, ghost temp: Key)
    requires Alone(s, i, was, base, temp) && s.uploads[i].phase.Receiving? && was.failure.None?
    modifies s
    ensures Alone(s, i, was, base, temp) && |s.uploads| == |old(s.uploads)| && s.permits == old(s.permits)
    ensures s.uploads[i].phase == if |was.body| < was.size then Cleaning else Stored
  {
    while s.uploads[i].phase.Receiving?
      invariant Alone(s, i, was, base, temp) && |s.uploads| == |old(s.uploads)| && s.permits == old(s.permits)
      invariant || s.uploads[i].phase == Receiving
                || s.uploads[i].phase == if |was.body| < was.size then Cleaning else Stored
      decreases if s.uploads[i].phase.Receiving? then 1 + was.size - s.uploads[i].received else 0
    {
      ghost var before := s.files;
      s.Receive(i, true, false, false, BLOCK, 0);
      assert s.files.Keys == before.Keys;
      forall k | k in base ensures k in s.files && s.files[k] == base[k] {
        assert k in before - {temp};
      }
      assert s.files - {temp} == base;
    }
  }

  /** From the creation of the temporary file to the answer. */
  method ServeBody(s: Server, i: nat, ghost was: Upload, ghost temp: Key)
    requires s.Valid() && i < |s.uploads| && s.uploads[i] == was.(phase := Creating, temporary := Some(temp))
    requires was.reply.None? && was.failure.None? && !was.published && was.received == 0
    requires was.target != temp && s.uploads[i].target !in s.files && temp !in s.files
    modifies s
    ensures s.Valid() && |s.uploads| == |old(s.uploads)| && s.permits == old(s.permits)
    ensures s.uploads[i].phase.Cleaning? && s.uploads[i].failure.None? && s.uploads[i].temporary == Some(temp)
    ensures SameRequest(s.uploads[i], was)
    ensures s.uploads[i].reply == if |was.body| < was.size then None else Some(201)
    ensures s.files - {temp} == if s.uploads[i].reply != Some(201) then old(s.files)
                                else old(s.files)[was.target := Declared(was)]
  {
    ghost var base := s.files;
    s.Create(i, false, false);
    ReceiveAll(s, i, was, base, temp);
    if s.uploads[i].phase.Stored? { PublishStored(s, i, was, base, temp); }
  }

  /** A stored upload whose name is still free is published and answered. */
  method PublishStored(s: Server, i: nat, ghost was: Upload, ghost base: Files, ghost temp: Key)
    requires Alone(s, i, was, base, temp) && s.uploads[i].phase.Stored? && was.target != temp && was.target !in base
    modifies s
    ensures s.Valid() && |s.uploads| == |old(s.uploads)| && s.permits == old(s.permits)
    ensures var u := s.uploads[i];
            && u.phase.Cleaning? && u.failure == was.failure && u.temporary == Some(temp) && u.reply == Some(201)
            && SameRequest(u, was)
    ensures s.files - {temp} == base[was.target := Declared(was)]
  {
    assert base.Keys == s.files.Keys - {temp};
    s.Ready(i, true);
    s.Publish(i, false, false);
    assert s.files - {temp} == base[was.target := Declared(was)];
    AnswerPublished(s, i, temp);
  }

  /** A published upload loses its temporary name, if it still has it, and is answered. */
  method AnswerPublished(s: Server, i: nat, ghost temp: Key)
    requires s.Valid() && i < |s.uploads| && s.uploads[i].temporary == Some(temp)
    requires s.uploads[i].phase.Linked? || s.uploads[i].phase.Replying?
    modifies s
    ensures s.Valid() && |s.uploads| == |old(s.uploads)| && s.permits == old(s.permits)
    ensures s.uploads[i] == old(s.uploads[i]).(phase := Cleaning, reply := Some(201))
    ensures s.files - {temp} == old(s.files) - {temp}
  {
    if s.uploads[i].phase.Linked? { s.Unlink(i, false, false); }
    s.Answer(i);
  }

  /**
   An upload whose client is gone and whose temporary file cannot be removed: its handler is over, but the file
   stays and the permit does not return.
   */
  method LosePermit(s: Server, space: nat)
    requires s.Valid() && s.permits > 0 && RESERVE + 1 <= space && Shown(0, "a") !in s.files
    modifies s
    ensures s.Valid() && s.permits == old(s.permits) - 1 && s.downloads == old(s.downloads)
    ensures |s.uploads| == |old(s.uploads)| + 1 && s.uploads[..|old(s.uploads)|] == old(s.uploads)
    ensures var u := s.uploads[|old(s.uploads)|];
            u.phase == Over(false) && u.temporary.Some? && u.temporary.value in s.files
    ensures Shown(0, "a") !in s.files
  {
    LetterIsName();
    var i := |s.uploads|;
    var _ := s.Arrive(0, "a", Some(1), []);
    s.OpenFolder(i, true, false, false);
    s.Look(i, false, false);
    s.Measure(i, false, false, space);
    s.Create(i, false, false);
    s.Receive(i, true, false, false, BLOCK, 0);
    s.CleanUp(i, true, false);
  }

  /**
   A write that fills the disk: the upload is answered with 507, its temporary file is gone and its permit is back. Any
   other failed write is answered with 403.
   */
  method FillDisk(s: Server, i: nat, full: bool, stored: nat)
    requires s.Valid() && i < |s.uploads| && s.uploads[i].phase.Receiving? && s.uploads[i].reply.None?
    requires s.uploads[i].received < s.uploads[i].size && s.uploads[i].received < |s.uploads[i].body|
    modifies s
    ensures s.Valid() && s.permits == old(s.permits) + 1 && |s.uploads| == |old(s.uploads)|
    ensures s.uploads[i].phase == Over(true) && !s.uploads[i].published
    ensures s.uploads[i].reply == if full then Some(507) else Some(403)
    ensures old(s.uploads[i]).temporary.Some? && s.files == old(s.files) - {old(s.uploads[i]).temporary.value}
  {
    ghost var files, was := s.files, s.uploads[i];
    s.Receive(i, true, true, full, BLOCK, stored);
    assert s.uploads[i] == Failed(was, full);
    assert s.files - {was.temporary.value} == files - {was.temporary.value};
    s.CleanUp(i, false, false);
  }

  /** After two such uploads every further one is refused for good, although none is running. */
  method LoseBoth(renames: bool, space: nat, name: string, size: nat, body: seq<byte>)
    returns (s: Server, refusal: Option<nat>)
    requires RESERVE + 1 <= space && size <= MAX_FILE && ShownPart(name)
    ensures s.Valid() && s.downloads == 0 && forall i :: 0 <= i < |s.uploads| ==> s.uploads[i].phase.Over?
    ensures refusal == Some(429)
  {
    s := new Server(renames, map[]);
    LosePermit(s, space);
    LosePermit(s, space);
    assert |s.uploads| == 2 && s.uploads[0].phase.Over? && s.uploads[1].phase.Over?;
    refusal := s.Arrive(0, name, Some(size), body);
  }

  lemma LetterIsName()
    ensures ShownPart("a")
  {
    Utf8.EncodeFirst('a', "");
  }
}
