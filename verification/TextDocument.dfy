/** The text editor's document: what it accepts, how it keeps marks and line ends, and when it overwrites. */
module TextDocument {
  import opened Common
  import opened Utf8

  const TEXT_LIMIT := 2 * 1024 * 1024
  const LINE_LIMIT := 20000
  const WIDTH_LIMIT := 65536

  const CRLF := "\r\n"

  /** Every "\r\n" becomes "\n". */
  function Unix(s: string): string {
    if s == [] then []
    else if CRLF <= s then ['\n'] + Unix(s[2..])
    else [s[0]] + Unix(s[1..])
  }

  /** Every "\n" becomes "\r\n". */
  function Dos(s: string): string {
    if s == [] then []
    else (if s[0] == '\n' then CRLF else [s[0]]) + Dos(s[1..])
  }

  /** The string without its "\r\n" pairs. */
  function Unpaired(s: string): string {
    if s == [] then []
    else if CRLF <= s then Unpaired(s[2..])
    else [s[0]] + Unpaired(s[1..])
  }

  predicate Paired(s: string) {
    s != [] && (CRLF <= s || Paired(s[1..]))
  }

  function Count(s: string, c: char): nat {
    if s == [] then 0 else (if s[0] == c then 1 else 0) + Count(s[1..], c)
  }

  /** The number of UTF-16 code units. */
  function Units(s: string): nat {
    if s == [] then 0 else (if s[0] as int >= 0x1_0000 then 2 else 1) + Units(s[1..])
  }

  /** A character as UTF-16 code units (RFC 2781, section 2.1). */
  ghost function Utf16(c: char): seq<nat> {
    var n := c as int - 0x1_0000;
    if n < 0 then [c as nat] else [0xD800 + n / 0x400, 0xDC00 + n % 0x400]
  }

  ghost function Utf16All(s: string): seq<nat> {
    if s == [] then [] else Utf16(s[0]) + Utf16All(s[1..])
  }

  lemma {:induction false} UnitsMean(s: string)
    ensures Units(s) == |Utf16All(s)|
  {
    if s != [] {
      UnitsMean(s[1..]);
    }
  }

  /** There is one line more than there are line feeds. */
  lemma {:induction false} CountMeans(s: string, c: char)
    ensures |Split(s, c)| == Count(s, c) + 1
  {
    if s != [] {
      CountMeans(s[1..], c);
    }
  }

  ghost predicate NarrowLines(s: string) {
    forall line :: line in Split(s, '\n') ==> |Utf16All(line)| <= 65536
  }

  /** What the editor will hold: 20,001 lines at most, of 65,536 code units each, without NUL and carriage return. */
  ghost predicate Editable(s: string) {
    '\0' !in s && '\r' !in s && |Split(s, '\n')| <= 20_001 && NarrowLines(s)
  }

  /** A carriage return before a line feed, and a line feed without one. */
  ghost predicate PairAt(s: string, i: nat) { i + 1 < |s| && s[i] == '\r' && s[i + 1] == '\n' }

  ghost predicate LoneAt(s: string, i: nat) { i < |s| && s[i] == '\n' && (i > 0 ==> s[i - 1] != '\r') }

  lemma {:induction false} PairedMeans(s: string)
    ensures Paired(s) <==> exists i: nat :: PairAt(s, i)
  {
    if s != [] {
      PairedMeans(s[1..]);
      if i: nat :| PairAt(s, i) {
        assert i > 0 ==> PairAt(s[1..], i - 1);
      }
      if i: nat :| PairAt(s[1..], i) {
        assert PairAt(s, i + 1);
      }
      assert CRLF <= s ==> PairAt(s, 0);
    }
  }

  /** What is left once the pairs are removed has a line feed exactly if some line feed is not part of a pair. */
  lemma {:induction false} UnpairedMeans(s: string)
    ensures '\n' in Unpaired(s) <==> exists i: nat :: LoneAt(s, i)
    decreases |s|
  {
    if s != [] {
      var n := if CRLF <= s then 2 else 1;
      UnpairedMeans(s[n..]);
      if i: nat :| LoneAt(s, i) {
        assert i >= n ==> LoneAt(s[n..], i - n);
      }
      if i: nat :| LoneAt(s[n..], i) {
        assert LoneAt(s, i + n);
      }
      assert s[0] == '\n' ==> LoneAt(s, 0);
    }
  }

  /** The bytes that stand for a text with the given mark and line ends. */
  ghost function Bytes(text: string, bom: bool, crlf: bool): seq<byte> {
    (if bom then BOM else []) + Encode(if crlf then Dos(text) else text)
  }

  datatype Content = Content(text: string, bom: bool, crlf: bool)

  ghost function Unmarked(b: seq<byte>): seq<byte> {
    if BOM <= b then b[3..] else b
  }

  /** What loading these bytes yields, if anything. */
  ghost function Parsed(b: seq<byte>): Option<Content> {
    var d := DecodeMarked(Unmarked(b));
    if |b| > 2_097_152 || 0 in b || d.errors then None
    else if Paired(d.text) && '\n' in Unpaired(d.text) then None
    else if !Editable(Unix(d.text)) then None
    else Some(Content(Unix(d.text), BOM <= b, Paired(d.text)))
  }

  // Line ends.

  lemma {:induction false} UnixOfDos(s: string)
    requires '\r' !in s
    ensures Unix(Dos(s)) == s && '\n' !in Unpaired(Dos(s)) && (Paired(Dos(s)) <==> '\n' in s)
  {
    if s != [] {
      UnixOfDos(s[1..]);
      if s[0] == '\n' {
        assert Dos(s)[2..] == Dos(s[1..]);
      } else {
        assert Dos(s)[1..] == Dos(s[1..]);
        assert Dos(s) == [s[0]] + Dos(s[1..]);
      }
    }
  }

  lemma {:induction false} DosOfUnix(s: string)
    requires '\r' !in Unix(s) && '\n' !in Unpaired(s)
    ensures Dos(Unix(s)) == s
    decreases |s|
  {
    if s == [] {
    } else if CRLF <= s {
      DosOfUnix(s[2..]);
      assert s == CRLF + s[2..];
      assert Unix(s)[1..] == Unix(s[2..]);
    } else {
      DosOfUnix(s[1..]);
      assert s == [s[0]] + s[1..];
      assert Unix(s)[1..] == Unix(s[1..]);
      assert Unix(s)[0] == s[0] && Unpaired(s)[0] == s[0];
    }
  }

  lemma {:induction false} UnixAlone(s: string)
    requires !Paired(s)
    ensures Unix(s) == s
  {
    if s != [] {
      UnixAlone(s[1..]);
      assert s == [s[0]] + s[1..];
    }
  }

  lemma {:induction false} NoPairs(s: string)
    requires '\r' !in s
    ensures !Paired(s) && Unix(s) == s
  {
    if s != [] {
      NoPairs(s[1..]);
      assert s == [s[0]] + s[1..];
    }
  }

  lemma {:induction false} NulEncoded(s: string)
    ensures 0 in Encode(s) <==> '\0' in s
  {
    if s != [] {
      NulEncoded(s[1..]);
      assert 0 in EncodeChar(s[0]) <==> s[0] == '\0';
      assert s == [s[0]] + s[1..];
    }
  }

  lemma {:induction false} NulDos(s: string)
    ensures '\0' in Dos(s) <==> '\0' in s
  {
    if s != [] {
      NulDos(s[1..]);
      assert s == [s[0]] + s[1..];
    }
  }

  // Loading, then saving.

  /** The text of accepted bytes renders to the decoder's text again. */
  lemma Rendered(b: seq<byte>)
    requires Parsed(b).Some?
    ensures var c := Parsed(b).value;
            (if c.crlf then Dos(c.text) else c.text) == DecodeMarked(Unmarked(b)).text
  {
    var d := DecodeMarked(Unmarked(b));
    if Paired(d.text) {
      DosOfUnix(d.text);
    } else {
      UnixAlone(d.text);
    }
  }

  /**
   Saving an unmodified text gives back the loaded bytes exactly when they did not begin with two marks and
   did not break off inside a character: the decoder drops both silently.
   */
  lemma LoadThenSave(b: seq<byte>)
    requires Parsed(b).Some?
    ensures var c := Parsed(b).value;
            Bytes(c.text, c.bom, c.crlf) == b <==> !(BOM + BOM <= b) && !CutShort(b)
  {
    var c, rest := Parsed(b).value, Unmarked(b);
    var body := if BOM <= rest then rest[3..] else rest;
    var d := Decode(body);
    Rendered(b);
    EncodeDecode(body);
    KeptIffCutShort(body);
    if BOM <= b {
      CutShortUnmarked(b);
      assert b == BOM + rest;
      assert BOM + BOM <= b <==> BOM <= rest by {
        if BOM + BOM <= b { assert b[3..6] == BOM && rest[..3] == b[3..6]; }
        if BOM <= rest { assert b[..6] == BOM + BOM; }
      }
    }
    if BOM <= rest {
      CutShortUnmarked(rest);
      assert rest == BOM + body;
      assert BOM <= b;
    }
    var saved := Bytes(c.text, c.bom, c.crlf);
    assert |saved| == |b| - (if BOM <= rest then 3 else 0) - |d.kept|;
  }

  /** What loading makes of a plain "a", with or without something behind it that the decoder keeps. */
  lemma LetterA(tail: seq<byte>)
    requires tail == [] || tail == [0xC3]
    ensures Decode([0x61] + tail) == Decoded("a", false, tail) && Unix("a") == "a" && !Paired("a") && Editable("a")
  {
    var b := [0x61] + tail;
    assert Next(b) == Char('a', 1) && b[1..] == tail;
    assert tail != [] ==> Next(tail).Unfinished?;
    NoPairs("a");
    assert Split("a", '\n') == ["a"] by {
      assert "a"[1..] == "";
    }
    UnitsMean("a");
    assert Units("a") == 1;
  }

  /** For instance these bytes: the second mark is gone once the document is saved. */
  lemma SecondMarkIsLost()
    ensures var b := BOM + BOM + [0x61]; Parsed(b) == Some(Content("a", true, false)) && Bytes("a", true, false) != b
  {
    var b := BOM + BOM + [0x61];
    LetterA([]);
    assert Unmarked(b) == BOM + [0x61];
    assert (BOM + [0x61])[3..] == [0x61] + [];
    LoadThenSave(b);
  }

  /** And these: the broken character at the end is. */
  lemma BrokenEndingIsLost()
    ensures var b := [0x61, 0xC3]; Parsed(b) == Some(Content("a", false, false)) && Bytes("a", false, false) != b
  {
    var b: seq<byte> := [0x61, 0xC3];
    LetterA([0xC3]);
    assert b == [0x61] + [0xC3] && Unmarked(b) == b;
    LoadThenSave(b);
    assert Last(b, 1) == [0xC3];
  }

  // Saving, then loading.

  ghost function Written(text: string, crlf: bool): string {
    if crlf then Dos(text) else text
  }

  lemma ReadBack(text: string, crlf: bool)
    requires '\r' !in text
    ensures var w := Written(text, crlf);
            && Decode(Encode(w)) == Decoded(w, false, [])
            && Unix(w) == text && (Paired(w) <==> crlf && '\n' in text) && (Paired(w) ==> '\n' !in Unpaired(w))
            && (BOM <= Encode(w) <==> Marked(text))
  {
    DecodeEncode(Written(text, crlf));
    EncodedMark(Written(text, crlf));
    UnixOfDos(text);
    NoPairs(text);
  }

  /** Without its mark, an encoded text is the encoding of the rest. */
  lemma DropMark(text: string, crlf: bool)
    requires Marked(text)
    ensures Encode(Written(text, crlf))[3..] == Encode(Written(text[1..], crlf))
  {
    var w := Written(text, crlf);
    assert w[1..] == Written(text[1..], crlf) by {
      if crlf { assert Dos(text) == [text[0]] + Dos(text[1..]); }
    }
    assert EncodeChar(w[0]) == BOM;
  }

  /** Any text that save accepts loads again as itself, unless it begins with U+FEFF, which reads as a mark. */
  lemma SaveThenLoad(text: string, bom: bool, crlf: bool)
    requires Editable(text) && |Bytes(text, bom, crlf)| <= TEXT_LIMIT
    ensures var p := Parsed(Bytes(text, bom, crlf));
            && (p == Some(Content(text, bom, crlf && '\n' in text)) <==> !Marked(text))
            && (p.Some? && p.value.text == text <==> !Marked(text))
  {
    var b, e := Bytes(text, bom, crlf), Encode(Written(text, crlf));
    assert bom ==> b[3..] == e;
    assert !bom ==> b == e;
    ReadBack(text, crlf);
    if !Marked(text) {
      assert Unmarked(b) == e;
      NulEncoded(Written(text, crlf));
      NulDos(text);
      assert 0 !in b;
    } else {
      MarkLost(text, bom, crlf);
    }
  }

  lemma MarkedLetterA()
    ensures var text := [ZERO_WIDTH_NO_BREAK, 'a']; Editable(text) && Encode(text) == BOM + [0x61]
  {
    var text := [ZERO_WIDTH_NO_BREAK, 'a'];
    EncodeFirst(text[0], "a");
    EncodeFirst('a', "");
    assert text == [text[0]] + "a" && text[1..] == "a" && "a" == ['a'] + "";
    SplitJoin([text], '\n');
    UnitsMean(text);
    assert Units("a") == 1 && Units(text) == 2;
  }

  /** For instance this text: its first character is taken for the file's mark. */
  lemma MarkedTextIsLost()
    ensures var text := [ZERO_WIDTH_NO_BREAK, 'a'];
            && Editable(text) && |Bytes(text, false, false)| <= TEXT_LIMIT
            && Parsed(Bytes(text, false, false)) == Some(Content("a", true, false))
  {
    var b := Bytes([ZERO_WIDTH_NO_BREAK, 'a'], false, false);
    MarkedLetterA();
    LetterA([]);
    assert b == BOM + [0x61] && Unmarked(b) == [0x61] + [] == [0x61];
    assert DecodeMarked(Unmarked(b)) == Decoded("a", false, []);
    assert 0 !in b;
  }

  /** What the decoder makes of an encoded text. */
  lemma DecodedText(text: string, crlf: bool)
    requires '\r' !in text
    ensures var e := Encode(Written(text, crlf));
            && Unix(DecodeMarked(e).text) == WithoutMark(text)
            && (Marked(text) ==> BOM <= e && e[3..] == Encode(Written(text[1..], crlf)))
  {
    ReadBack(text, crlf);
    if Marked(text) {
      DropMark(text, crlf);
      ReadBack(text[1..], crlf);
    }
  }

  /** At least one mark too many is dropped, so what is read back is shorter than what was written. */
  lemma MarkLost(text: string, bom: bool, crlf: bool)
    requires Marked(text) && '\r' !in text
    ensures var p := Parsed(Bytes(text, bom, crlf)); p.Some? ==> |p.value.text| < |text|
  {
    var b, e := Bytes(text, bom, crlf), Encode(Written(text, crlf));
    DecodedText(text, crlf);
    DecodedText(text[1..], crlf);
    assert if bom then Unmarked(b) == e else b == e;
  }

  ghost predicate Writes(c: Content, b: seq<byte>) {
    Editable(c.text) && !Marked(c.text) && Bytes(c.text, c.bom, c.crlf) == b
  }

  /** Leaving second marks and broken endings aside, the files that load are exactly those a save could have written. */
  lemma LoadableExactly(b: seq<byte>)
    ensures (Parsed(b).Some? && !(BOM + BOM <= b) && !CutShort(b))
            <==> |b| <= TEXT_LIMIT && exists c: Content :: Writes(c, b)
  {
    if Parsed(b).Some? && !(BOM + BOM <= b) && !CutShort(b) {
      var c := Parsed(b).value;
      LoadThenSave(b);
      ReadBack(c.text, c.crlf);
      assert Writes(c, b);
    }
    if c: Content :| Writes(c, b) && |b| <= TEXT_LIMIT {
      SaveThenLoad(c.text, c.bom, c.crlf);
      LoadThenSave(b);
      if c.crlf && '\n' !in c.text {
        DosAlone(c.text);
      }
    }
  }

  lemma {:induction false} DosAlone(s: string)
    requires '\n' !in s
    ensures Dos(s) == s
  {
    if s != [] {
      DosAlone(s[1..]);
    }
  }

  // The document.

  datatype Node = Regular(content: seq<byte>, device: nat, inode: nat) | Symlink | Other

  /** The only change is that the file now holds exactly the content. */
  ghost predicate Replaced(before: map<string, Node>, after: map<string, Node>, file: string, content: seq<byte>) {
    file in after && after[file].Regular? && after[file].content == content && after == before[file := after[file]]
  }

  /** The files the editor sees, by absolute path. Every fault is an operation that failed although it was allowed. */
  class Disk {
    const guarded: set<string>
    var files: map<string, Node>
    var faults: nat

    constructor (guarded: set<string>, files: map<string, Node>)
      ensures this.guarded == guarded && this.files == files && faults == 0
    {
      this.guarded, this.files, faults := guarded, files, 0;
    }

    /** Writes a temporary file beside the target and renames it over: all or nothing, under a new identity. */
    method Replace(file: string, content: seq<byte>) returns (ok: bool)
      modifies this
      ensures ok <==> faults == old(faults)
      ensures old(faults) <= faults
      ensures ok ==> Replaced(old(files), files, file, content)
      ensures !ok ==> files == old(files)
    {
      var failed: bool;
      failed, faults := MayFail(faults);
      if failed { return false; }
      var device: nat, inode: nat := *, *;
      files := files[file := Regular(content, device, inode)];
      return true;
    }
  }

  method LinesFit(s: string) returns (fit: bool)
    ensures fit <==> NarrowLines(s)
  {
    var lines := Split(s, '\n');
    for i := 0 to |lines|
      invariant forall j :: 0 <= j < i ==> |Utf16All(lines[j])| <= WIDTH_LIMIT
    {
      UnitsMean(lines[i]);
      if Units(lines[i]) > WIDTH_LIMIT {
        assert lines[i] in lines;
        return false;
      }
    }
    return true;
  }

  class Document {
    var path: string
    var text: string
    var original: seq<byte>
    var device: nat
    var inode: nat
    var bom: bool
    var crlf: bool

    constructor ()
      ensures path == "" && text == "" && original == [] && !bom && !crlf
    {
      path, text, original, device, inode, bom, crlf := "", "", [], 0, 0, false, false;
    }

    /** Opening a file either leaves the document as it was or holds exactly what the bytes say. */
    method Load(disk: Disk, file: string) returns (ok: bool)
      modifies this, disk`faults
      ensures old(disk.faults) <= disk.faults
      ensures ok <==> disk.faults == old(disk.faults) && file in disk.files && disk.files[file].Regular?
                      && Parsed(disk.files[file].content).Some?
      ensures ok ==> path == file && disk.files[file] == Regular(original, device, inode)
                     && Parsed(original) == Some(Content(text, bom, crlf))
      ensures !ok ==> unchanged(this)
    {
      if file !in disk.files || !disk.files[file].Regular? || |disk.files[file].content| > TEXT_LIMIT {
        return false;
      }
      var unreadable: bool;
      unreadable, disk.faults := MayFail(disk.faults);
      if unreadable { return false; }
      var bytes := disk.files[file].content;
      if 0 in bytes { return false; }
      var hasBom := BOM <= bytes;
      var decoded := DecodeMarked(if hasBom then bytes[3..] else bytes);
      if decoded.errors { return false; }
      var windows := Paired(decoded.text);
      var normalized := Unix(decoded.text);
      CarryNul(bytes);
      if '\r' in normalized || (windows && '\n' in Unpaired(decoded.text)) { return false; }
      CountMeans(normalized, '\n');
      if Count(normalized, '\n') > LINE_LIMIT { return false; }
      var fit := LinesFit(normalized);
      if !fit { return false; }
      var lost: bool;
      lost, disk.faults := MayFail(disk.faults);
      if lost { return false; }
      device, inode := disk.files[file].device, disk.files[file].inode;
      path, text, original, bom, crlf := file, normalized, bytes, hasBom, windows;
      return true;
    }

    /** Whether the file still is what was last loaded or saved; a new path must not exist. */
    method Ours(disk: Disk, file: string) returns (ours: bool)
      modifies disk`faults
      ensures old(disk.faults) <= disk.faults
      ensures ours <==> disk.faults == old(disk.faults) && Expected(disk.files, file)
    {
      if file != path { return file !in disk.files; }
      if file !in disk.files || !disk.files[file].Regular? || disk.files[file].device != device
         || disk.files[file].inode != inode { return false; }
      var unreadable: bool;
      unreadable, disk.faults := MayFail(disk.faults);
      return !unreadable && disk.files[file].content == original;
    }

    ghost predicate Expected(files: map<string, Node>, file: string)
      reads this
    {
      if file == path then file in files && files[file] == Regular(original, device, inode) else file !in files
    }

    /** The rules a save obeys: what it may write over, and what it will write. */
    ghost predicate Saveable(files: map<string, Node>, guarded: set<string>, file: string, value: string)
      reads this
    {
      && file !in guarded && Editable(value) && |Bytes(value, bom, crlf)| <= 2_097_152
      && Expected(files, file)
    }

    /**
     A save to the document's own path replaces only the bytes, on the very inode, last loaded or saved; any
     other path must be new. When it says it failed, either nothing was written or all of it was, in which
     case the document still holds what it held before and so cannot overwrite what it does not know.
     */
    method Save(disk: Disk, file: string, value: string) returns (ok: bool)
      modifies this, disk
      ensures old(disk.faults) <= disk.faults
      ensures ok <==> disk.faults == old(disk.faults) && old(Saveable(disk.files, disk.guarded, file, value))
      ensures ok ==> file in disk.files && disk.files[file] == Regular(original, device, inode)
                     && original == Bytes(value, bom, crlf) && path == file && text == value
      ensures bom == old(bom) && crlf == old(crlf)
      ensures !ok ==> unchanged(this)
      ensures disk.files == old(disk.files)
              || (old(Saveable(disk.files, disk.guarded, file, value))
                  && Replaced(old(disk.files), disk.files, file, Bytes(value, bom, crlf)))
    {
      if file in disk.guarded || (file in disk.files && disk.files[file].Symlink?) { return false; }
      if '\0' in value || '\r' in value { return false; }
      var bytes := Encode(if crlf then Dos(value) else value);
      if bom { bytes := BOM + bytes; }
      assert bytes == Bytes(value, bom, crlf);
      CountMeans(value, '\n');
      if |bytes| > TEXT_LIMIT || Count(value, '\n') > LINE_LIMIT { return false; }
      var fit := LinesFit(value);
      if !fit { return false; }
      var ours := Ours(disk, file);
      if !ours { return false; }
      var written := disk.Replace(file, bytes);
      if !written { return false; }
      var unseen: bool;
      unseen, disk.faults := MayFail(disk.faults);
      if unseen { return false; }
      device, inode := disk.files[file].device, disk.files[file].inode;
      path, text, original := file, value, bytes;
      return true;
    }
  }

  /** Bytes without a zero byte decode to a text without a NUL character. */
  lemma CarryNul(b: seq<byte>)
    requires 0 !in b
    ensures var d := DecodeMarked(Unmarked(b)); !d.errors ==> '\0' !in d.text && '\0' !in Unix(d.text)
  {
    var rest := Unmarked(b);
    var body := if BOM <= rest then rest[3..] else rest;
    var d := Decode(body);
    if !d.errors {
      EncodeDecode(body);
      NulEncoded(d.text);
      assert forall x :: x in body ==> x in b;
      assert Encode(d.text) == body[..|Encode(d.text)|];
      NulUnix(d.text);
    }
  }

  lemma {:induction false} NulUnix(s: string)
    requires '\0' !in s
    ensures '\0' !in Unix(s)
    decreases |s|
  {
    if s == [] {
    } else if CRLF <= s {
      NulUnix(s[2..]);
    } else {
      NulUnix(s[1..]);
    }
  }
}
