/** Ids made of several codes, and the paths of files: user event ids (be/handlers/apiconvert.go,
    be/handlers/find_user_events_handler.go), pic file ids (be/handlers/read_pic_handler.go), be/schema/picfile.go. */
module CompositeIds {
  import opened Prelude
  import opened Varint

  function Code(v: int64): string {
    Encode(ToUint64(v))
  }

  lemma CodesApart(v: int64, w: int64, t: string, u: string)
    requires Code(v) + t == Code(w) + u
    ensures v == w && t == u
  {
    PrefixFree(ToUint64(v), ToUint64(w), t, u);
  }

  // User event ids

  datatype EventKey = EventKey(user: int64, created: int64, index: int64)

  function EventId(k: EventKey): string {
    Code(k.user) + Code(k.created) + if k.index != 0 then Code(k.index) else ""
  }

  /** `apiUserEventId`. */
  method AppendEventId(k: EventKey) returns (b: string)
    ensures b == EventId(k)
  {
    hide Encode, ToUint64;
    b := [];
    b := Append(k.user, b);
    b := Append(k.created, b);
    if k.index != 0 {
      b := Append(k.index, b);
    }
  }

  /** The reading of an id by `handleFindUserEvents`; the empty id stands for no key. */
  function ParseEvent(raw: string): Option<EventKey> {
    match Decode(raw)
    case Err(_) => None
    case Ok((user, n)) =>
      if n > |raw| then None else
      match Decode(raw[n..])
      case Err(_) => None
      case Ok((created, m)) =>
        if n + m > |raw| then None else
        if raw[n + m..] == "" then Some(EventKey(user, created, 0)) else
        match DecodeAll(raw[n + m..])
        case Err(_) => None
        case Ok(index) => Some(EventKey(user, created, index))
  }

  lemma DecodeBound(raw: string)
    ensures Decode(raw).Ok? ==> 0 < Decode(raw).value.1 <= |raw|
  {
  }

  method ParseEventId(raw: string) returns (r: Option<EventKey>)
    ensures r == ParseEvent(raw)
  {
    hide Decode;
    var i := 0;
    var user := DecodeBytes(raw[i..]);
    assert raw[0..] == raw;
    DecodeBound(raw);
    if user.Err? {
      return None;
    }
    i := i + user.value.1;
    DecodeBound(raw[i..]);
    var created := DecodeBytes(raw[i..]);
    if created.Err? {
      return None;
    }
    i := i + created.value.1;
    var index: int64 := 0;
    if raw[i..] != "" {
      DecodeBound(raw[i..]);
      var decoded := DecodeBytes(raw[i..]);
      if decoded.Err? {
        return None;
      }
      index := decoded.value.0;
      i := i + decoded.value.1;
    }
    if raw[i..] != "" {
      return None;
    }
    return Some(EventKey(user.value.0, created.value.0, index));
  }

  /** One code read off the front. */
  lemma ReadFront(v: int64, t: string)
    ensures Decode(Code(v) + t) == if v == -1 && t != [] then Err(Overflow) else Ok((v, |Code(v)|))
  {
    if t == [] {
      assert Code(v) + t == Code(v);
      RoundTrip(v);
    } else {
      RoundTripWithTail(v, t);
    }
  }

  /** An event id reads back as the key it was made of, exactly when no -1 is followed by another field. */
  lemma EventRoundTrip(k: EventKey)
    ensures ParseEvent(EventId(k)) == Some(k) <==> k.user != -1 && (k.created != -1 || k.index == 0)
    ensures ParseEvent(EventId(k)) in {Some(k), None}
  {
    hide Decode, Encode, Code, ToUint64;
    NoEmptyCode(k.index);
    NoEmptyCode(k.created);
    var last := if k.index != 0 then Code(k.index) else "";
    var rest := Code(k.created) + last;
    assert EventId(k) == Code(k.user) + rest;
    ReadFront(k.user, rest);
    if k.user != -1 {
      assert EventId(k)[|Code(k.user)|..] == rest;
      ReadFront(k.created, last);
      if k.created != -1 || last == [] {
        assert EventId(k)[|Code(k.user)| + |Code(k.created)|..] == last;
        if k.index != 0 { ReadAll(k.index); }
      }
    }
  }

  lemma ReadAll(v: int64)
    ensures DecodeAll(Code(v)) == Ok(v)
  {
    RoundTrip(v);
  }

  lemma NoEmptyCode(v: int64)
    ensures Code(v) != ""
  {
  }

  lemma Assoc(a: string, b: string, c: string)
    ensures a + (b + c) == a + b + c
  {
  }

  /** Whether it reads back or not, an id stands for one key only. */
  lemma EventIdsApart(k: EventKey, l: EventKey)
    requires EventId(k) == EventId(l)
    ensures k == l
  {
    hide Encode, ToUint64, Code;
    NoEmptyCode(k.index);
    NoEmptyCode(l.index);
    var a := if k.index != 0 then Code(k.index) else "";
    var b := if l.index != 0 then Code(l.index) else "";
    assert EventId(k) == Code(k.user) + (Code(k.created) + a) && EventId(l) == Code(l.user) + (Code(l.created) + b);
    CodesApart(k.user, l.user, Code(k.created) + a, Code(l.created) + b);
    CodesApart(k.created, l.created, a, b);
    if k.index != 0 && l.index != 0 {
      assert a == a + [] && b == b + [];
      CodesApart(k.index, l.index, [], []);
    }
  }

  /** Every accepted id is, but for case, the id of the key it is read as; only a zero index may be spelled out. */
  lemma AcceptedEventIds(raw: string, k: EventKey)
    requires ParseEvent(raw) == Some(k)
    ensures LowerAll(raw) == EventId(k) || (k.index == 0 && LowerAll(raw) == EventId(k) + Code(0))
  {
    var a, b, last := ParsedParts(raw, k);
    EventIdWith(k, LowerAll(last));
    hide *;
    LowerConcat(a, b + last);
    LowerConcat(b, last);
    Assoc(Code(k.user), Code(k.created), LowerAll(last));
  }

  lemma EventIdWith(k: EventKey, last: string)
    ensures last == Code(k.index) ==>
              Code(k.user) + Code(k.created) + last == if k.index != 0 then EventId(k) else EventId(k) + Code(0)
    ensures last == "" && k.index == 0 ==> Code(k.user) + Code(k.created) + last == EventId(k)
  {
    hide Code;
    if k.index == 0 {
      assert EventId(k) == Code(k.user) + Code(k.created);
    }
  }

  /** What the three parts of an accepted id read as. */
  lemma ParsedParts(raw: string, k: EventKey) returns (a: string, b: string, last: string)
    requires ParseEvent(raw) == Some(k)
    ensures raw == a + (b + last) && LowerAll(a) == Code(k.user) && LowerAll(b) == Code(k.created)
    ensures if last == "" then k.index == 0 && LowerAll(last) == "" else LowerAll(last) == Code(k.index)
  {
    hide Decode, LowerAll, Encode;
    var n := Decode(raw).value.1;
    var rest := raw[n..];
    var m := Decode(rest).value.1;
    a, b, last := raw[..n], rest[..m], rest[m..];
    assert last == raw[n + m..];
    DecodeExact(raw, k.user, n);
    DecodeExact(rest, k.created, m);
    if last != "" {
      DecodeExact(last, k.index, |last|);
      assert last[..|last|] == last;
    } else {
      LowerEmpty();
    }
  }

  lemma LowerEmpty()
    ensures LowerAll("") == ""
  {
  }

  lemma LowerConcat(s: string, t: string)
    ensures LowerAll(s + t) == LowerAll(s) + LowerAll(t)
  {
  }

  // The order of event ids

  /** Fields as unsigned numbers, the first one that differs deciding. */
  predicate KeyLess(k: EventKey, l: EventKey) {
    || ToUint64(k.user) < ToUint64(l.user)
    || (k.user == l.user && ToUint64(k.created) < ToUint64(l.created))
    || (k.user == l.user && k.created == l.created && ToUint64(k.index) < ToUint64(l.index))
  }

  lemma {:induction false} LexLessApart(a: string, b: string, x: string, y: string)
    requires LexLess(a, b) && !(a <= b)
    ensures LexLess(a + x, b + y)
  {
    assert (a + x)[0] == a[0] && (b + y)[0] == b[0];
    assert a == [a[0]] + a[1..] && b == [b[0]] + b[1..];
    if a[0] == b[0] {
      LexLessApart(a[1..], b[1..], x, y);
      assert (a + x)[1..] == a[1..] + x && (b + y)[1..] == b[1..] + y;
    }
  }

  /** What follows does not change the order of different codes. */
  lemma CodeOrder(v: int64, w: int64, x: string, y: string)
    requires ToUint64(v) < ToUint64(w)
    ensures LexLess(Code(v) + x, Code(w) + y)
  {
    hide Encode, LexLess;
    EncodeOrder(ToUint64(v), ToUint64(w));
    if Code(v) <= Code(w) {
      var t := Code(w)[|Code(v)|..];
      assert Code(v) + t == Code(w) + [];
      CodesApart(v, w, t, []);
    }
    LexLessApart(Code(v), Code(w), x, y);
  }

  lemma EmptyFirst(v: int64)
    ensures LexLess("", Code(v))
  {
  }

  /** Event ids sort as their keys do. */
  lemma EventOrder(k: EventKey, l: EventKey)
    requires KeyLess(k, l)
    ensures LexLess(EventId(k), EventId(l))
  {
    hide LexLess, Code, Encode;
    var a := if k.index != 0 then Code(k.index) else "";
    var b := if l.index != 0 then Code(l.index) else "";
    Assoc(Code(k.user), Code(k.created), a);
    Assoc(Code(l.user), Code(l.created), b);
    assert EventId(k) == Code(k.user) + (Code(k.created) + a) && EventId(l) == Code(l.user) + (Code(l.created) + b);
    hide EventId;
    if k.user != l.user {
      CodeOrder(k.user, l.user, Code(k.created) + a, Code(l.created) + b);
    } else {
      LexLessPrepend(Code(k.user), Code(k.created) + a, Code(l.created) + b);
      if k.created != l.created {
        CodeOrder(k.created, l.created, a, b);
      } else {
        LexLessPrepend(Code(k.created), a, b);
        if k.index != 0 {
          CodeOrder(k.index, l.index, [], []);
          assert a + [] == a && b + [] == b;
        } else {
          EmptyFirst(l.index);
        }
      }
    }
  }

  lemma EventOrderIff(k: EventKey, l: EventKey)
    ensures LexLess(EventId(k), EventId(l)) <==> KeyLess(k, l)
  {
    if KeyLess(k, l) {
      EventOrder(k, l);
    } else if k == l {
      if LexLess(EventId(k), EventId(l)) { LexLessAsymmetric(EventId(k), EventId(l)); }
    } else {
      KeysCompare(k, l);
      EventOrder(l, k);
      if LexLess(EventId(k), EventId(l)) { LexLessAsymmetric(EventId(k), EventId(l)); }
    }
  }

  lemma KeysCompare(k: EventKey, l: EventKey)
    requires !KeyLess(k, l) && k != l
    ensures KeyLess(l, k)
  {
  }

  // Pic file ids

  /** The file of a pic, or with an index one made from it. */
  datatype FileKey = FileKey(pic: int64, derived: Option<int64>)

  function FileId(k: FileKey): string {
    Code(k.pic) + if k.derived.Some? then Code(k.derived.value) else ""
  }

  /** The reading of an id by `handleLookupPicFile`. */
  method ParseFileId(raw: string) returns (r: Option<FileKey>)
    ensures r == ParseFile(raw)
  {
    var pic := DecodeBytes(raw);
    DecodeBound(raw);
    if pic.Err? {
      return None;
    }
    var n := pic.value.1;
    if |raw| != n {
      var index := DecodeBytes(raw[n..]);
      if index.Err? {
        return None;
      }
      if index.value.1 != |raw[n..]| {
        return None;
      }
      return Some(FileKey(pic.value.0, Some(index.value.0)));
    }
    return Some(FileKey(pic.value.0, None));
  }

  function ParseFile(raw: string): Option<FileKey> {
    match Decode(raw)
    case Err(_) => None
    case Ok((pic, n)) =>
      if n > |raw| then None else
      if n == |raw| then Some(FileKey(pic, None)) else
      match DecodeAll(raw[n..])
      case Err(_) => None
      case Ok(index) => Some(FileKey(pic, Some(index)))
  }

  lemma FileRoundTrip(k: FileKey)
    ensures ParseFile(FileId(k)) == Some(k) <==> k.pic != -1 || k.derived == None
    ensures ParseFile(FileId(k)) in {Some(k), None}
  {
    hide Decode, Encode, Code, ToUint64;
    if k.derived.Some? { NoEmptyCode(k.derived.value); }
    var last := if k.derived.Some? then Code(k.derived.value) else "";
    ReadFront(k.pic, last);
    if k.pic != -1 || k.derived == None {
      assert FileId(k)[|Code(k.pic)|..] == last;
      if k.derived.Some? { ReadAll(k.derived.value); }
    }
  }

  /** `apiPic` makes the id of a pic's file from that of the file with index 0 by cutting off the last byte. */
  lemma TrimmedId(pic: int64)
    ensures var id := FileId(FileKey(pic, Some(0)));
            id != [] && id[..|id| - 1] == FileId(FileKey(pic, None))
  {
  }

  // Paths

  datatype Mime = Jpeg | Gif | Png | Webm | Mp4 | OtherMime

  function Ext(m: Mime): Option<string> {
    match m
    case Jpeg => Some(".jpg")
    case Gif => Some(".gif")
    case Png => Some(".png")
    case Webm => Some(".webm")
    case Mp4 => Some(".mp4")
    case OtherMime => None
  }

  /** The table of formats by extension. */
  function MimeOf(ext: string): Option<Mime> {
    if ext == ".jpg" then Some(Jpeg)
    else if ext == ".gif" then Some(Gif)
    else if ext == ".png" then Some(Png)
    else if ext == ".webm" then Some(Webm)
    else if ext == ".mp4" then Some(Mp4)
    else None
  }

  /** The two tables are inverse to each other. */
  lemma ExtsInverse(m: Mime, ext: string)
    ensures Ext(m) == Some(ext) <==> MimeOf(ext) == Some(m)
    ensures Ext(m) == None <==> m == OtherMime
  {
    ExtsDiffer();
  }

  lemma ExtsDiffer()
    ensures var exts := [".jpg", ".gif", ".png", ".webm", ".mp4"];
            forall i, k :: 0 <= i < k < 5 ==> exts[i] != exts[k]
  {
    assert ".jpg"[1] == 'j' && ".gif"[1] == 'g' && ".png"[1] == 'p' && ".webm"[1] == 'w' && ".mp4"[1] == 'm';
    var exts := [".jpg", ".gif", ".png", ".webm", ".mp4"];
    forall i, k | 0 <= i < k < 5 ensures exts[i] != exts[k] {
      assert exts[i][1] != exts[k][1];
    }
  }

  /** The directories of a pic below the root: one for each symbol of its code but the last. */
  function BaseDir(pic: int64): seq<string> {
    seq(|Code(pic)| - 1, i requires 0 <= i < |Code(pic)| - 1 => [Code(pic)[i]])
  }

  /** `PicBaseDir`; a path is the list of its components. */
  method PicBaseDir(pixPath: seq<string>, id: int64) returns (path: seq<string>)
    ensures path == pixPath + BaseDir(id)
    ensures |path| == |pixPath| + |Code(id)| - 1
    ensures forall i :: 0 <= i < |Code(id)| - 1 ==> path[|pixPath| + i] == [Code(id)[i]]
  {
    hide Encode, ToUint64;
    var vid := Append(id, []);
    assert vid == Code(id);
    path := pixPath;
    for i := 0 to |vid| - 1
      invariant path == pixPath + BaseDir(id)[..i]
    {
      assert BaseDir(id)[..i + 1] == BaseDir(id)[..i] + [[vid[i]]];
      assert vid[i..i + 1] == [vid[i]];
      path := path + [vid[i..i + 1]];
    }
    assert BaseDir(id)[..|vid| - 1] == BaseDir(id);
  }

  /** `PicFilePath` and `PicFileDerivedPath`; none for a format without an extension. */
  function Path(k: FileKey, m: Mime): Option<seq<string>> {
    match Ext(m)
    case None => None
    case Some(ext) => Some(BaseDir(k.pic) + [FileId(k) + ext])
  }

  lemma NoDots(n: uint64)
    ensures forall i :: 0 <= i < |Encode(n)| ==> Encode(n)[i] != '.'
  {
    var h, m := Shape(n);
    hide Encode, Symbol, Digits;
    SymbolNoDot(h);
    DigitsNoDots(m, Width(h));
  }

  lemma SymbolNoDot(d: int)
    requires 0 <= d < SYMBOL_COUNT
    ensures Symbol(d) != '.'
  {
  }

  lemma {:induction false} DigitsNoDots(m: nat, len: nat)
    ensures forall i :: 0 <= i < |Digits(m, len)| ==> Digits(m, len)[i] != '.'
  {
    if len > 0 {
      DigitsNoDots(m / 32, len - 1);
    }
  }

  lemma FileIdNoDots(k: FileKey)
    ensures forall i :: 0 <= i < |FileId(k)| ==> FileId(k)[i] != '.'
  {
    NoDots(ToUint64(k.pic));
    if k.derived.Some? { NoDots(ToUint64(k.derived.value)); }
  }

  /** A name ends where its extension starts. */
  lemma SplitAtDot(a: string, x: string, b: string, y: string)
    requires a + x == b + y && x != [] && y != [] && x[0] == '.' == y[0]
    requires (forall i :: 0 <= i < |a| ==> a[i] != '.') && forall i :: 0 <= i < |b| ==> b[i] != '.'
    ensures a == b && x == y
  {
    assert (a + x)[|a|] == '.' && (b + y)[|b|] == '.';
    assert forall i :: 0 <= i < |a| ==> (a + x)[i] == a[i];
    assert forall i :: 0 <= i < |b| ==> (b + y)[i] == b[i];
    assert a == (a + x)[..|a|] && b == (b + y)[..|b|];
    assert x == (a + x)[|a|..] && y == (b + y)[|b|..];
  }

  lemma ExtsApart(m: Mime, n: Mime)
    requires Ext(m).Some? && Ext(m) == Ext(n)
    ensures m == n
  {
    assert ".jpg"[1] == 'j' && ".gif"[1] == 'g' && ".png"[1] == 'p' && ".webm"[1] == 'w' && ".mp4"[1] == 'm';
  }

  /** No two files share a path: the path tells the pic, the index if any, and the format. */
  lemma PathsApart(k: FileKey, m: Mime, l: FileKey, n: Mime)
    requires Path(k, m).Some? && Path(k, m) == Path(l, n)
    ensures k == l && m == n
  {
    var p, q := Path(k, m).value, Path(l, n).value;
    var x, y := Ext(m).value, Ext(n).value;
    assert p[|p| - 1] == FileId(k) + x && q[|q| - 1] == FileId(l) + y;
    FileIdNoDots(k);
    FileIdNoDots(l);
    SplitAtDot(FileId(k), x, FileId(l), y);
    ExtsApart(m, n);
    var a := if k.derived.Some? then Code(k.derived.value) else "";
    var b := if l.derived.Some? then Code(l.derived.value) else "";
    CodesApart(k.pic, l.pic, a, b);
    if k.derived.Some? && l.derived.Some? {
      assert a + [] == a && b + [] == b;
      CodesApart(k.derived.value, l.derived.value, [], []);
    }
  }

  /** No file stands where another file needs a directory. */
  lemma NeverFileAndDir(k: FileKey, m: Mime, pic: int64, i: nat)
    requires Path(k, m).Some? && i < |BaseDir(pic)|
    ensures Path(k, m).value != BaseDir(pic)[..i + 1]
  {
    var p := Path(k, m).value;
    var name := FileId(k) + Ext(m).value;
    assert p[|p| - 1] == name && |name| > 1;
    assert BaseDir(pic)[..i + 1][i] == BaseDir(pic)[i] && |BaseDir(pic)[i]| == 1;
  }
}
