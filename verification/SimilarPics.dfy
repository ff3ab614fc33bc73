/** Looking for similar pics (be/tasks/find_similar_pics_task.go): a scan over the idents of all pics, from the
    perceptual hashes on. It does not stop where they end. */
module SimilarPics {
  import opened Bits
  import opened Hash
  import opened Lists
  import opened Prelude

  /** `PicIdent.Type` of be/schema/pixur.proto. */
  datatype Kind = Unknown | Sha1 | Md5 | Dct0 | Sha512_256 {
    function Number(): nat {
      match this
      case Unknown => 0
      case Sha1 => 2
      case Md5 => 3
      case Dct0 => 4
      case Sha512_256 => 5
    }
  }

  type byte = x: int | 0 <= x < 256

  datatype Ident = Ident(picId: int64, kind: Kind, value: seq<byte>)

  /** As uploads write them: a hash has eight bytes, a digest more. */
  predicate Written(idents: seq<Ident>) {
    forall e :: e in idents ==> |e.value| >= 8
  }

  /** `binary.BigEndian.Uint64`: the number spelled by the first eight bytes. */
  function Word(value: seq<byte>): uint64
    requires |value| >= 8
  {
    var v: seq<int> := value;
    ((((((v[0] * 256 + v[1]) * 256 + v[2]) * 256 + v[3]) * 256 + v[4]) * 256 + v[5]) * 256 + v[6]) * 256 + v[7]
  }

  /** `binary.BigEndian.PutUint64`: the byte for the highest bits comes first. */
  function Bytes(w: uint64): (value: seq<byte>)
    ensures |value| == 8
  {
    LowBytes(w, 8)
  }

  /** The n lowest bytes of a number, the higher ones first. */
  function LowBytes(w: nat, n: nat): (value: seq<byte>)
    ensures |value| == n
  {
    if n == 0 then [] else LowBytes(w / 256, n - 1) + [w % 256]
  }

  lemma LowStep(w: nat, n: nat)
    ensures LowBytes(w, n + 1) == LowBytes(w / 256, n) + [w % 256] && w == 256 * (w / 256) + w % 256
  {
  }

  /** Reading the bytes of a hash gives the hash. */
  lemma WordReads(w: uint64)
    ensures Word(Bytes(w)) == w
  {
    hide LowBytes;
    var w1 := w / 256;
    var w2 := w1 / 256;
    var w3 := w2 / 256;
    var w4 := w3 / 256;
    LowStep(w, 7);
    LowStep(w1, 6);
    LowStep(w2, 5);
    LowStep(w3, 4);
    var high := LowBytes(w4, 4);
    assert Bytes(w) == high + [w3 % 256, w2 % 256, w1 % 256, w % 256];
    HighWord(w4);
  }

  lemma HighWord(w: nat)
    requires w < 0x1_0000_0000
    ensures var v: seq<int> := LowBytes(w, 4);
            w == ((v[0] * 256 + v[1]) * 256 + v[2]) * 256 + v[3]
  {
    hide LowBytes;
    var w1 := w / 256;
    var w2 := w1 / 256;
    LowStep(w, 3);
    LowStep(w1, 2);
    LowStep(w2, 1);
    LowStep(w2 / 256, 0);
    assert LowBytes(w, 4) == LowBytes(w2 / 256 / 256, 0) + [w2 / 256 % 256, w2 % 256, w1 % 256, w % 256];
  }

  predicate Near(e: Ident, target: uint64) {
    |e.value| >= 8 && Distance(Word(e.value), target) <= 10
  }

  // The task

  /** The rows of the scan, in the order of the index, which is that of `idents`. */
  function Scanned(idents: seq<Ident>): seq<Ident> { Select(idents, (e: Ident) => e.kind.Number() >= Dct0.Number()) }

  function Found(picId: int64, target: uint64): Ident -> bool {
    (e: Ident) => e.picId != picId && Near(e, target)
  }

  /** The hash of a pic, the first if there are several. */
  function Target(idents: seq<Ident>, picId: int64): Option<Ident> {
    if idents == [] then None
    else if idents[0].picId == picId && idents[0].kind == Dct0 then Some(idents[0])
    else Target(idents[1..], picId)
  }

  datatype SimilarError = NoPic | NoHash

  /** `FindSimilarPicsTask.Run` after the checks of the user. */
  method FindSimilar(pics: set<int64>, idents: seq<Ident>, picId: int64) returns (r: Result<seq<int64>, SimilarError>)
    requires Written(idents)
    ensures r == Err(NoPic) <==> picId !in pics
    ensures r == Err(NoHash) <==> picId in pics && !exists e :: e in idents && e.picId == picId && e.kind == Dct0
    ensures r.Ok? ==>
              var target := Target(idents, picId);
              target.Some? && |target.value.value| >= 8 && r.value == Answer(idents, picId, Word(target.value.value))
  {
    hide Distance, Word, Select, Target;
    if picId !in pics {
      return Err(NoPic);
    }
    TargetIs(idents, picId);
    var target := Target(idents, picId);
    if target == None {
      return Err(NoHash);
    }
    var wanted := Word(target.value.value);
    var scanned := Scanned(idents);
    var similar: seq<int64> := [];
    ScannedWritten(idents);
    NothingFound(picId, wanted);
    for i := 0 to |scanned|
      invariant similar == Ids(Select(scanned[..i], Found(picId, wanted)))
    {
      var e := scanned[i];
      assert e in scanned;
      FoundMore(scanned, i, picId, wanted);
      if e.picId != picId {
        var guess := Word(e.value);
        var bitCount := CountLoop(guess, wanted);
        if bitCount <= 10 {
          similar := similar + [e.picId];
        }
      }
    }
    assert scanned[..|scanned|] == scanned;
    return Ok(similar);
  }

  function Ids(es: seq<Ident>): seq<int64> { seq(|es|, i requires 0 <= i < |es| => es[i].picId) }

  function Answer(idents: seq<Ident>, picId: int64, target: uint64): seq<int64> {
    Ids(Select(Scanned(idents), Found(picId, target)))
  }

  lemma {:induction false} TargetIs(idents: seq<Ident>, picId: int64)
    ensures match Target(idents, picId)
            case None => !exists e :: e in idents && e.picId == picId && e.kind == Dct0
            case Some(e) => e in idents && e.picId == picId && e.kind == Dct0
  {
    if idents != [] {
      TargetIs(idents[1..], picId);
      assert forall e :: e in idents <==> e == idents[0] || e in idents[1..];
    }
  }

  lemma ScannedMembers(idents: seq<Ident>, e: Ident)
    ensures e in Scanned(idents) <==> e in idents && (e.kind == Dct0 || e.kind == Sha512_256)
  {
    SelectMembers(idents, (e: Ident) => e.kind.Number() >= Dct0.Number(), e);
  }

  lemma ScannedWritten(idents: seq<Ident>)
    requires Written(idents)
    ensures Written(Scanned(idents))
  {
    hide Scanned;
    forall e | e in Scanned(idents) ensures |e.value| >= 8 {
      ScannedMembers(idents, e);
    }
  }

  lemma NothingFound(picId: int64, target: uint64)
    ensures Ids(Select([], Found(picId, target))) == []
  {
  }

  lemma FoundMore(es: seq<Ident>, i: nat, picId: int64, target: uint64)
    requires i < |es|
    ensures Ids(Select(es[..i + 1], Found(picId, target)))
            == Ids(Select(es[..i], Found(picId, target))) + if Found(picId, target)(es[i]) then [es[i].picId] else []
  {
    hide Near;
    assert es[..i + 1][..i] == es[..i];
  }

  // What the answer means

  /** What the task is for: a perceptual hash of the pic differs from that looked for in ten places at most. */
  predicate Alike(idents: seq<Ident>, picId: int64, target: uint64, id: int64) {
    id != picId && exists e :: e in idents && e.picId == id && e.kind == Dct0 && Near(e, target)
  }

  /** The first bytes of the digest of the file happen to be within ten places of the hash looked for. */
  predicate Struck(idents: seq<Ident>, picId: int64, target: uint64, id: int64) {
    id != picId && exists e :: e in idents && e.picId == id && e.kind == Sha512_256 && Near(e, target)
  }

  lemma IdsMembers(es: seq<Ident>, id: int64)
    ensures id in Ids(es) <==> exists e :: e in es && e.picId == id
  {
    if e :| e in es && e.picId == id {
      var i :| 0 <= i < |es| && es[i] == e;
      assert Ids(es)[i] == id;
    }
  }

  lemma FoundMembers(idents: seq<Ident>, picId: int64, target: uint64, e: Ident)
    ensures e in Select(Scanned(idents), Found(picId, target))
            <==> e in idents && (e.kind == Dct0 || e.kind == Sha512_256) && e.picId != picId && Near(e, target)
  {
    hide Near, Scanned, Select;
    SelectMembers(Scanned(idents), Found(picId, target), e);
    ScannedMembers(idents, e);
  }

  /** The answer holds the pics that are alike, and those struck by a digest. */
  lemma AnswerMembers(idents: seq<Ident>, picId: int64, target: uint64, id: int64)
    ensures id in Answer(idents, picId, target)
            <==> Alike(idents, picId, target, id) || Struck(idents, picId, target, id)
  {
    hide Near, Scanned, Select;
    var es := Scanned(idents);
    IdsMembers(Select(es, Found(picId, target)), id);
    forall e ensures e in Select(es, Found(picId, target))
                     <==> e in idents && (e.kind == Dct0 || e.kind == Sha512_256) && e.picId != picId && Near(e, target)
    {
      FoundMembers(idents, picId, target, e);
    }
  }

  /** So it holds just the pics that are alike if and only if every pic that a digest strikes is alike too. */
  lemma AnswerRight(idents: seq<Ident>, picId: int64, target: uint64)
    ensures (forall id :: id in Answer(idents, picId, target) <==> Alike(idents, picId, target, id))
            <==> forall id :: Struck(idents, picId, target, id) ==> Alike(idents, picId, target, id)
  {
    hide Answer, Alike, Struck;
    forall id: int64
      ensures id in Answer(idents, picId, target)
              <==> Alike(idents, picId, target, id) || Struck(idents, picId, target, id)
    {
      AnswerMembers(idents, picId, target, id);
    }
  }

  /** Uploads write one ident of each kind for a pic. */
  predicate OneOfEachKind(idents: seq<Ident>) {
    forall i, j :: 0 <= i < j < |idents| && idents[i].picId == idents[j].picId ==> idents[i].kind != idents[j].kind
  }

  predicate NoRepeats(s: seq<int64>) {
    forall i, j :: 0 <= i < j < |s| ==> s[i] != s[j]
  }

  lemma {:induction false} SelectKinds(idents: seq<Ident>, keep: Ident -> bool)
    requires OneOfEachKind(idents)
    ensures OneOfEachKind(Select(idents, keep))
  {
    SelectAscending(idents, keep, (a: Ident, b: Ident) => a.picId == b.picId ==> a.kind != b.kind);
  }

  /** A pic is listed twice if and only if it is alike and its digest strikes as well. */
  lemma AnswerRepeats(idents: seq<Ident>, picId: int64, target: uint64)
    requires OneOfEachKind(idents)
    ensures NoRepeats(Answer(idents, picId, target))
            <==> !exists id :: Alike(idents, picId, target, id) && Struck(idents, picId, target, id)
  {
    hide Near, Scanned, Select, Alike, Struck;
    var es := Select(Scanned(idents), Found(picId, target));
    if id :| Alike(idents, picId, target, id) && Struck(idents, picId, target, id) {
      ListedTwice(idents, picId, target, id);
    }
    if !NoRepeats(Ids(es)) {
      var i, j :| 0 <= i < j < |es| && Ids(es)[i] == Ids(es)[j];
      BothKinds(idents, picId, target, i, j);
    }
  }

  lemma ListedTwice(idents: seq<Ident>, picId: int64, target: uint64, id: int64)
    requires Alike(idents, picId, target, id) && Struck(idents, picId, target, id)
    ensures !NoRepeats(Answer(idents, picId, target))
  {
    hide Near, Scanned, Select;
    var es := Select(Scanned(idents), Found(picId, target));
    var d :| d in idents && d.picId == id && d.kind == Dct0 && Near(d, target);
    var e :| e in idents && e.picId == id && e.kind == Sha512_256 && Near(e, target);
    FoundMembers(idents, picId, target, d);
    FoundMembers(idents, picId, target, e);
    var i :| 0 <= i < |es| && es[i] == d;
    var j :| 0 <= j < |es| && es[j] == e;
    assert Ids(es)[i] == Ids(es)[j] && i != j;
  }

  lemma BothKinds(idents: seq<Ident>, picId: int64, target: uint64, i: nat, j: nat)
    requires OneOfEachKind(idents) && i < j < |Select(Scanned(idents), Found(picId, target))|
    requires var es := Select(Scanned(idents), Found(picId, target)); es[i].picId == es[j].picId
    ensures var id := Select(Scanned(idents), Found(picId, target))[i].picId;
            Alike(idents, picId, target, id) && Struck(idents, picId, target, id)
  {
    hide Near, Scanned, Select;
    var es := Select(Scanned(idents), Found(picId, target));
    KeptKinds(idents, picId, target);
    FoundMembers(idents, picId, target, es[i]);
    FoundMembers(idents, picId, target, es[j]);
  }

  lemma KeptKinds(idents: seq<Ident>, picId: int64, target: uint64)
    requires OneOfEachKind(idents)
    ensures OneOfEachKind(Select(Scanned(idents), Found(picId, target)))
  {
    SelectKinds(idents, (e: Ident) => e.kind.Number() >= Dct0.Number());
    SelectKinds(Scanned(idents), Found(picId, target));
  }

  // An input on which a digest strikes

  function Bytes8(b: byte): seq<byte> { [b, b, b, b, b, b, b, b] }

  /** Pic 1 has a hash without bits, pic 2 one with all; but the digest of the file of pic 2 begins with zeros. */
  function StruckIdents(rest: seq<byte>): seq<Ident> {
    [Ident(1, Dct0, Bytes8(0)), Ident(2, Dct0, Bytes8(255)), Ident(2, Sha512_256, Bytes8(0) + rest)]
  }

  /** The hashes of the two differ in all 64 places, and yet pic 2 is the answer for pic 1. */
  lemma DigestStrikes(rest: seq<byte>)
    ensures var idents := StruckIdents(rest);
            && Written(idents) && OneOfEachKind(idents) && Target(idents, 1) == Some(idents[0])
            && Distance(Word(idents[1].value), Word(idents[0].value)) == 64
            && Answer(idents, 1, Word(idents[0].value)) == [2] && !Alike(idents, 1, Word(idents[0].value), 2)
  {
    var idents := StruckIdents(rest);
    StruckTable(rest);
    StruckWords(rest);
    hide StruckIdents, Distance, Word, Near, Written, OneOfEachKind, Target;
    SelectAll(idents, (e: Ident) => e.kind.Number() >= Dct0.Number());
    SelectSlice(idents, Found(1, 0), 2, 3);
  }

  lemma StruckTable(rest: seq<byte>)
    ensures var idents := StruckIdents(rest);
            && |idents| == 3 && Written(idents) && OneOfEachKind(idents) && Target(idents, 1) == Some(idents[0])
            && idents[0].picId == 1 && idents[1].picId == 2 == idents[2].picId
            && idents[0].kind == Dct0 == idents[1].kind && idents[2].kind == Sha512_256
  {
  }

  lemma StruckWords(rest: seq<byte>)
    ensures var idents := StruckIdents(rest);
            && |idents| == 3 && Written(idents) && Word(idents[0].value) == 0
            && Distance(Word(idents[1].value), 0) == 64 && !Near(idents[1], 0) && Near(idents[2], 0)
  {
    assert (Bytes8(0) + rest)[..8] == Bytes8(0) == Bytes8(0)[..8];
    ZeroWord();
    FullWord();
    FarApart();
    SameWord(0);
    hide Distance, Word;
    SameWords(Bytes8(0) + rest, Bytes8(0));
  }

  /** Only the first eight bytes count. */
  lemma SameWords(a: seq<byte>, b: seq<byte>)
    requires |a| >= 8 && |b| >= 8 && a[..8] == b[..8]
    ensures Word(a) == Word(b)
  {
    assert forall i :: 0 <= i < 8 ==> a[i] == a[..8][i] && b[i] == b[..8][i];
  }

  lemma ZeroWord()
    ensures Word(Bytes8(0)) == 0
  {
  }

  lemma FullWord()
    ensures Word(Bytes8(255)) == MAX_WORD
  {
  }

  const MAX_WORD: uint64 := TWO_TO_THE_64 - 1

  lemma SameWord(a: nat)
    ensures Distance(a, a) == 0
  {
    assert (set k | 0 <= k < 64 && Bit(a, k) != Bit(a, k)) == {};
  }

  lemma FarApart()
    ensures Distance(MAX_WORD, 0) == 64
  {
    Pow2Of64();
    forall k | 0 <= k < 64 ensures Bit(MAX_WORD, k) != Bit(0, k) && Bit(MAX_WORD, k) {
      AllOnes(64, k);
      ZeroBit(k);
    }
    hide Bit, Count;
    CountFull(MAX_WORD, 64);
    CountIsSize(MAX_WORD, 64);
    assert (set k | 0 <= k < 64 && Bit(MAX_WORD, k) != Bit(0, k)) == Ones(MAX_WORD, 64);
  }

  lemma {:induction false} AllOnes(n: nat, k: nat)
    requires k < n
    ensures Bit(Pow2(n) - 1, k)
  {
    if k > 0 {
      AllOnes(n - 1, k - 1);
    }
  }

  lemma {:induction false} CountFull(c: nat, n: nat)
    requires forall k :: 0 <= k < n ==> Bit(c, k)
    ensures Count(c, n) == n
  {
    hide Bit;
    if n > 0 {
      CountFull(c, n - 1);
    }
  }
}
