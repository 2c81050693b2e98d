/** The play-time database: a map from program ID to seconds played, its
    accessors, the on-disk element list (16 bytes per entry: program ID then
    play time, each a u64 in host byte order, which is little-endian on the
    supported hosts), and the hours/minutes/seconds
    split of a duration. The file itself is an input: its presence, whether
    it opens, its bytes and whether the read came up short. */
module PlayTime {
  import opened MachineIntegers

  type Byte = x: int | 0 <= x < 256

  type Database = map<U64, U64>

  // ---------------------------------------------------------------------
  // Accessors
  // ---------------------------------------------------------------------

  /** The recorded play time, 0 for a program never recorded. */
  function GetPlayTime(db: Database, id: U64): (t: U64)
    ensures id in db ==> t == db[id]
    ensures id !in db ==> t == 0
  {
    if id in db then db[id] else 0
  }

  function SetPlayTime(db: Database, id: U64, t: U64): (r: Database)
    ensures id in r && r[id] == t
    ensures r.Keys == db.Keys + {id}
    ensures forall k :: k in db && k != id ==> r[k] == db[k]
  {
    db[id := t]
  }

  function ResetProgramPlayTime(db: Database, id: U64): (r: Database)
    ensures id !in r
    ensures r.Keys == db.Keys - {id}
    ensures forall k :: k in r ==> r[k] == db[k]
  {
    db - {id}
  }

  /** After a set, the program reads back the new time and no other program
      changes. */
  lemma SetThenGet(db: Database, id: U64, t: U64, other: U64)
    ensures GetPlayTime(SetPlayTime(db, id, t), id) == t
    ensures other != id ==> GetPlayTime(SetPlayTime(db, id, t), other) == GetPlayTime(db, other)
  {
  }

  /** After a reset, the program reads 0 and no other program changes. */
  lemma ResetThenGet(db: Database, id: U64, other: U64)
    ensures GetPlayTime(ResetProgramPlayTime(db, id), id) == 0
    ensures other != id ==> GetPlayTime(ResetProgramPlayTime(db, id), other) == GetPlayTime(db, other)
  {
  }

  // ---------------------------------------------------------------------
  // Little-endian u64
  // ---------------------------------------------------------------------

  function Pow256(n: nat): (r: nat)
    ensures r >= 1
  {
    if n == 0 then 1 else 256 * Pow256(n - 1)
  }

  /** The `n` low-order bytes of `x`, least significant first. */
  function EncodeLE(x: nat, n: nat): (r: seq<Byte>)
    ensures |r| == n
  {
    if n == 0 then [] else [x % 256] + EncodeLE(x / 256, n - 1)
  }

  function DecodeLE(b: seq<Byte>): (r: nat)
    ensures r < Pow256(|b|)
  {
    if |b| == 0 then 0 else b[0] + 256 * DecodeLE(b[1..])
  }

  /** Decoding undoes encoding for every value that fits. */
  lemma {:induction false} DecodeEncodeLE(x: nat, n: nat)
    requires x < Pow256(n)
    ensures DecodeLE(EncodeLE(x, n)) == x
    decreases n
  {
    if n > 0 {
      DecodeEncodeLE(x / 256, n - 1);
      assert EncodeLE(x, n)[1..] == EncodeLE(x / 256, n - 1);
    }
  }

  lemma U64FitsEightBytes()
    ensures Pow256(8) == U64Modulus
  {
  }

  // ---------------------------------------------------------------------
  // Elements
  // ---------------------------------------------------------------------

  datatype Element = Element(programId: U64, playTime: U64)

  const ElementSize := 16

  function EncodeElement(e: Element): (r: seq<Byte>)
    ensures |r| == ElementSize
  {
    EncodeLE(e.programId, 8) + EncodeLE(e.playTime, 8)
  }

  function DecodeElement(b: seq<Byte>): (e: Element)
    requires |b| == ElementSize
  {
    U64FitsEightBytes();
    Element(DecodeLE(b[..8]), DecodeLE(b[8..]))
  }

  lemma DecodeEncodeElement(e: Element)
    ensures DecodeElement(EncodeElement(e)) == e
  {
    U64FitsEightBytes();
    var b := EncodeElement(e);
    assert b[..8] == EncodeLE(e.programId, 8);
    assert b[8..] == EncodeLE(e.playTime, 8);
    DecodeEncodeLE(e.programId, 8);
    DecodeEncodeLE(e.playTime, 8);
  }

  /** The file image of an element list. */
  function Serialize(elements: seq<Element>): (r: seq<Byte>)
    ensures |r| == ElementSize * |elements|
  {
    if |elements| == 0 then [] else EncodeElement(elements[0]) + Serialize(elements[1..])
  }

  /** The first `n` whole elements of a byte image. */
  function Deserialize(bytes: seq<Byte>, n: nat): (r: seq<Element>)
    requires ElementSize * n <= |bytes|
    ensures |r| == n
  {
    if n == 0 then [] else [DecodeElement(bytes[..ElementSize])] + Deserialize(bytes[ElementSize..], n - 1)
  }

  lemma {:induction false} DeserializeSerialize(elements: seq<Element>, extra: seq<Byte>)
    ensures Deserialize(Serialize(elements) + extra, |elements|) == elements
    decreases |elements|
  {
    if |elements| > 0 {
      var bytes := Serialize(elements) + extra;
      assert bytes[..ElementSize] == EncodeElement(elements[0]);
      assert bytes[ElementSize..] == Serialize(elements[1..]) + extra;
      DecodeEncodeElement(elements[0]);
      DeserializeSerialize(elements[1..], extra);
    }
  }

  /** `order` lists every program of `db` exactly once: the database's
      iteration order. */
  predicate IsEnumeration(order: seq<U64>, db: Database) {
    && (forall i, j :: 0 <= i < j < |order| ==> order[i] != order[j])
    && (forall k :: k in db ==> k in order)
    && (forall k :: k in order ==> k in db)
  }

  /** The element list the writer emits: one element per recorded program,
      in iteration order, program 0 excepted. */
  function WriteElements(db: Database, order: seq<U64>): (r: seq<Element>)
    requires forall k :: k in order ==> k in db
    ensures forall k :: 0 <= k < |r| ==> r[k].programId != 0 && r[k].programId in order && db[r[k].programId] == r[k].playTime
    ensures forall id :: id in order && id != 0 ==> Element(id, db[id]) in r
    decreases |order|
  {
    if |order| == 0 then []
    else
      var rest := WriteElements(db, order[1..]);
      if order[0] != 0 then
        var r := [Element(order[0], db[order[0]])] + rest;
        assert forall k :: 0 <= k < |rest| ==> r[k + 1] == rest[k];
        r
      else rest
  }

  /** The database the reader builds from a list: program 0 is skipped and
      a later element for the same program overwrites an earlier one. */
  function LoadElements(elements: seq<Element>): (db: Database)
    ensures 0 !in db
    ensures forall id :: id in db <==> id != 0 && exists k :: 0 <= k < |elements| && elements[k].programId == id
    decreases |elements|
  {
    if |elements| == 0 then map[]
    else
      var n := |elements| - 1;
      var prev := LoadElements(elements[..n]);
      assert forall k :: 0 <= k < n ==> elements[..n][k] == elements[k];
      var e := elements[n];
      if e.programId != 0 then prev[e.programId := e.playTime] else prev
  }

  /** The last element of a program wins. */
  lemma {:induction false} LoadElementsLastWins(elements: seq<Element>, k: nat)
    requires k < |elements| && elements[k].programId != 0
    requires forall j :: k < j < |elements| ==> elements[j].programId != elements[k].programId
    ensures LoadElements(elements)[elements[k].programId] == elements[k].playTime
    decreases |elements|
  {
    var n := |elements| - 1;
    if k < n {
      LoadElementsLastWins(elements[..n], k);
    }
  }

  // ---------------------------------------------------------------------
  // The file
  // ---------------------------------------------------------------------

  /** The play-time file as the reader finds it. `shortRead` is set when
      fewer whole elements could be read than the size announces. */
  datatype FileState = Missing | Unopenable | Present(bytes: seq<Byte>, shortRead: bool)

  datatype ReadResult = ReadResult(ok: bool, db: Database)

  /** Reads the file into a fresh database. A missing file is an empty
      database; an unopenable file or a short read fails with the database
      left empty; trailing bytes short of a whole element are ignored. */
  function ReadPlayTimeFile(file: FileState): (r: ReadResult)
    ensures file.Missing? ==> r == ReadResult(true, map[])
    ensures file.Unopenable? || (file.Present? && file.shortRead) ==> r == ReadResult(false, map[])
    ensures file.Present? && !file.shortRead ==> r.ok && 0 !in r.db
  {
    match file
    case Missing => ReadResult(true, map[])
    case Unopenable => ReadResult(false, map[])
    case Present(bytes, shortRead) =>
      if shortRead then ReadResult(false, map[])
      else ReadResult(true, LoadElements(Deserialize(bytes, |bytes| / ElementSize)))
  }

  /** Only whole elements are read: bytes past the last whole element do not
      matter. */
  lemma TrailingBytesIgnored(bytes: seq<Byte>, extra: seq<Byte>)
    requires |bytes| % ElementSize == 0 && |extra| < ElementSize
    ensures ReadPlayTimeFile(Present(bytes + extra, false)) == ReadPlayTimeFile(Present(bytes, false))
  {
    var n := |bytes| / ElementSize;
    var padded := bytes + extra;
    assert |padded| / ElementSize == n;
    DeserializePrefix(bytes, extra, n);
    assert Deserialize(padded, |padded| / ElementSize) == Deserialize(bytes, |bytes| / ElementSize);
  }

  lemma {:induction false} DeserializePrefix(bytes: seq<Byte>, extra: seq<Byte>, n: nat)
    requires ElementSize * n <= |bytes|
    ensures Deserialize(bytes + extra, n) == Deserialize(bytes, n)
    decreases n
  {
    if n > 0 {
      assert (bytes + extra)[..ElementSize] == bytes[..ElementSize];
      assert (bytes + extra)[ElementSize..] == bytes[ElementSize..] + extra;
      DeserializePrefix(bytes[ElementSize..], extra, n - 1);
    }
  }

  predicate DistinctIds(elements: seq<Element>) {
    forall i, j :: 0 <= i < j < |elements| ==> elements[i].programId != elements[j].programId
  }

  /** The writer emits each program at most once. */
  lemma {:induction false} WrittenIdsDistinct(db: Database, order: seq<U64>)
    requires forall k :: k in order ==> k in db
    requires forall i, j :: 0 <= i < j < |order| ==> order[i] != order[j]
    ensures DistinctIds(WriteElements(db, order))
    decreases |order|
  {
    if |order| > 0 && order[0] != 0 {
      WrittenIdsDistinct(db, order[1..]);
      var rest := WriteElements(db, order[1..]);
      var r := WriteElements(db, order);
      forall i, j | 0 <= i < j < |r|
        ensures r[i].programId != r[j].programId
      {
        assert r[j] == rest[j - 1];
        assert rest[j - 1].programId in order[1..];
        if i > 0 {
          assert r[i] == rest[i - 1];
        } else {
          var m :| 0 <= m < |order[1..]| && order[1..][m] == rest[j - 1].programId;
          assert order[m + 1] == r[j].programId;
        }
      }
    } else if |order| > 0 {
      WrittenIdsDistinct(db, order[1..]);
      var rest := WriteElements(db, order[1..]);
      assert WriteElements(db, order) == rest;
    }
  }

  /** Reading a complete image yields exactly the loaded element list. */
  lemma ReadSerialized(elements: seq<Element>)
    ensures ReadPlayTimeFile(Present(Serialize(elements), false)) == ReadResult(true, LoadElements(elements))
  {
    var bytes := Serialize(elements);
    assert bytes + [] == bytes;
    assert |bytes| / ElementSize == |elements|;
    DeserializeSerialize(elements, []);
  }

  lemma LoadWrittenValues(db: Database, order: seq<U64>, id: U64)
    requires IsEnumeration(order, db)
    requires id in LoadElements(WriteElements(db, order))
    ensures id in db && LoadElements(WriteElements(db, order))[id] == db[id]
  {
    var elements := WriteElements(db, order);
    WrittenIdsDistinct(db, order);
    var k :| 0 <= k < |elements| && elements[k].programId == id;
    LoadElementsLastWins(elements, k);
  }

  lemma LoadWrittenHasAll(db: Database, order: seq<U64>, id: U64)
    requires IsEnumeration(order, db)
    requires id in db && id != 0
    ensures id in LoadElements(WriteElements(db, order))
  {
    var elements := WriteElements(db, order);
    assert Element(id, db[id]) in elements;
    var k :| 0 <= k < |elements| && elements[k] == Element(id, db[id]);
    assert elements[k].programId == id;
  }

  /** Loading what the writer emits rebuilds the database without program 0. */
  lemma LoadWritten(db: Database, order: seq<U64>)
    requires IsEnumeration(order, db)
    ensures LoadElements(WriteElements(db, order)) == db - {0}
  {
    var loaded := LoadElements(WriteElements(db, order));
    forall id | id in loaded
      ensures id in db - {0} && loaded[id] == db[id]
    {
      LoadWrittenValues(db, order, id);
    }
    forall id | id in db - {0}
      ensures id in loaded
    {
      LoadWrittenHasAll(db, order, id);
    }
    assert loaded.Keys == (db - {0}).Keys;
  }

  /** What the writer stores, the reader loads back: the database without
      program 0. */
  lemma WriteThenRead(db: Database, order: seq<U64>)
    requires IsEnumeration(order, db)
    ensures ReadPlayTimeFile(Present(Serialize(WriteElements(db, order)), false)) == ReadResult(true, db - {0})
  {
    ReadSerialized(WriteElements(db, order));
    LoadWritten(db, order);
  }

  // ---------------------------------------------------------------------
  // Durations
  // ---------------------------------------------------------------------

  /** The whole hours in `s` seconds. */
  function Hours(s: U64): (h: nat)
    ensures h * 3600 <= s < h * 3600 + 3600
  {
    s / 3600
  }

  /** The whole minutes past the last whole hour. */
  function Minutes(s: U64): (m: nat)
    ensures m < 60
    ensures Hours(s) * 3600 + m * 60 <= s < Hours(s) * 3600 + m * 60 + 60
  {
    (s % 3600) / 60
  }

  /** The seconds past the last whole minute. */
  function Seconds(s: U64): (sec: nat)
    ensures sec < 60 && sec <= s && (s - sec) % 60 == 0
  {
    s % 60
  }

  /** Hours, minutes and seconds recompose the duration, with minutes and
      seconds below 60. */
  lemma DurationDecomposition(s: U64)
    ensures Hours(s) * 3600 + Minutes(s) * 60 + Seconds(s) == s
    ensures Minutes(s) < 60 && Seconds(s) < 60
  {
    assert (s % 3600) % 60 == s % 60;
  }

  /** Which of the short forms the readable play time takes. */
  datatype ReadableForm = NoText | WholeMinutes | WholeHours | TenthsOfHours

  /** The readable form: nothing for zero, minutes below an hour, and hours
      otherwise, with a decimal when the seconds are not whole minutes. */
  function ReadablePlayTime(s: U64): (r: ReadableForm)
    ensures r == NoText <==> s == 0
    ensures r == WholeMinutes <==> 0 < s < 3600
    ensures r == TenthsOfHours <==> s >= 3600 && Seconds(s) != 0
    ensures r == WholeHours <==> s >= 3600 && Seconds(s) == 0
  {
    if s == 0 then NoText
    else if s < 3600 then WholeMinutes
    else if s % 60 != 0 then TenthsOfHours
    else WholeHours
  }
}
