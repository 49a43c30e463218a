/** The save-file reader (save_loader.py): a byte buffer consumed from the
    front, with every Python `FileTypeException` returned as an `Err`. */
module SaveLoader {
  import opened Wrappers
  import opened BinaryHelpers

  /** The four messages `FileTypeException` is raised with. */
  datatype Error = FileTooShort | PaddedTooShort | InvalidMapLength | NotEmpty

  /** A 32-bit float as the four bytes it was stored in; never interpreted. */
  type F32Bits = s: seq<Byte> | |s| == 4 witness [0, 0, 0, 0]

  function Pow256(n: nat): (r: nat)
    ensures r > 0
  {
    if n == 0 then 1 else 256 * Pow256(n - 1)
  }

  /** `bin_array_to_int`: Σ a[i]·256^(len-i-1), most significant byte first. */
  function BinArrayToInt(a: seq<Byte>): (r: nat)
    ensures r < Pow256(|a|)
  {
    if a == [] then 0
    else
      var rest := BinArrayToInt(a[1..]);
      assert a[0] as int * Pow256(|a| - 1) + rest < Pow256(|a|) by {
        MulLe(a[0], 255, Pow256(|a| - 1));
      }
      a[0] * Pow256(|a| - 1) + rest
  }

  lemma MulLe(a: nat, b: nat, c: nat)
    requires a <= b
    ensures a * c <= b * c
  {
  }

  /** Reading back what `u32_as_bytes` wrote gives the original number. */
  lemma U32RoundTrip(x: U32)
    ensures BinArrayToInt(U32AsBytes(x)) == x
  {
    var r := U32AsBytes(x);
    U32AsBytesBigEndian(x);
    assert Pow256(3) == 0x100_0000 && Pow256(2) == 0x1_0000 && Pow256(1) == 0x100;
    assert r[1..][1..][1..] == [r[3]];
    assert BinArrayToInt([r[3]]) == r[3];
    assert r[1..][1..] == [r[2], r[3]];
    assert BinArrayToInt([r[2], r[3]]) == r[2] as int * 0x100 + r[3] as int;
    assert r[1..] == [r[1], r[2], r[3]];
    assert BinArrayToInt([r[1], r[2], r[3]]) == r[1] as int * 0x1_0000 + r[2] as int * 0x100 + r[3] as int;
  }

  /** Hence `u32_as_bytes` is injective. */
  lemma U32AsBytesInjective(x: U32, y: U32)
    requires U32AsBytes(x) == U32AsBytes(y)
    ensures x == y
  {
    U32RoundTrip(x);
    U32RoundTrip(y);
  }

  /** `DataHandler`: the bytes not yet consumed. */
  datatype DataHandler = DataHandler(binaryData: seq<Byte>)

  /** `DataHandler.pop_u`: the first `length` bytes and the rest. */
  function PopU(d: DataHandler, length: nat): (r: Result<(seq<Byte>, DataHandler), Error>)
    ensures r.Err? <==> |d.binaryData| < length
    ensures r.Err? ==> r.error == FileTooShort
    ensures r.Ok? ==> |r.value.0| == length && r.value.0 + r.value.1.binaryData == d.binaryData
  {
    if |d.binaryData| < length then Err(FileTooShort)
    else Ok((d.binaryData[0..length], DataHandler(d.binaryData[length..])))
  }

  /** `DataHandler.pop_u32`: four bytes read big-endian. */
  function PopU32(d: DataHandler): (r: Result<(nat, DataHandler), Error>)
    ensures r.Err? <==> |d.binaryData| < 4
    ensures r.Err? ==> r.error == FileTooShort
    ensures r.Ok? ==>
      (r.value.0 < TwoTo32
       && r.value.0 == BinArrayToInt(d.binaryData[..4])
       && r.value.1.binaryData == d.binaryData[4..])
  {
    var p :- PopU(d, 4);
    assert Pow256(4) == TwoTo32;
    Ok((BinArrayToInt(p.0), p.1))
  }

  /** `DataHandler.pop_u8`: one byte. */
  function PopU8(d: DataHandler): (r: Result<(nat, DataHandler), Error>)
    ensures r.Err? <==> d.binaryData == []
    ensures r.Err? ==> r.error == FileTooShort
    ensures r.Ok? ==> r.value.0 == d.binaryData[0] && r.value.1.binaryData == d.binaryData[1..]
  {
    var p :- PopU(d, 1);
    assert p.0 == [p.0[0]];
    Ok((BinArrayToInt(p.0), p.1))
  }

  /** `DataHandler.pop_f32`: four bytes, kept uninterpreted. */
  function PopF32(d: DataHandler): (r: Result<(F32Bits, DataHandler), Error>)
    ensures r.Err? <==> |d.binaryData| < 4
    ensures r.Err? ==> r.error == FileTooShort
    ensures r.Ok? ==> r.value.0 == d.binaryData[..4] && r.value.1.binaryData == d.binaryData[4..]
  {
    var p :- PopU(d, 4);
    Ok((p.0, p.1))
  }

  /** `DataHandler.pop_padded_data_handler`: a `u32` size, then a handler over
      exactly that many of the following bytes. */
  function PopPaddedDataHandler(d: DataHandler): (r: Result<(DataHandler, DataHandler), Error>)
    ensures |d.binaryData| < 4 ==> r == Err(FileTooShort)
    ensures 4 <= |d.binaryData| ==>
      var size := BinArrayToInt(d.binaryData[..4]);
      && (r.Err? <==> |d.binaryData| - 4 < size)
      && (r.Err? ==> r.error == PaddedTooShort)
      && (r.Ok? ==> |r.value.0.binaryData| == size
                    && r.value.0.binaryData + r.value.1.binaryData == d.binaryData[4..])
  {
    var s :- PopU32(d);
    var size := s.0;
    var rest := s.1.binaryData;
    if |rest| < size then Err(PaddedTooShort)
    else Ok((DataHandler(rest[..size]), DataHandler(rest[size..])))
  }

  /** On a padded record followed by anything, the record comes back exactly
      and the rest is left. */
  lemma PaddedRoundTrip(payload: seq<Byte>, rest: seq<Byte>)
    requires |payload| < TwoTo32
    ensures PopPaddedDataHandler(DataHandler(AsPaddedBinary(payload) + rest))
      == Ok((DataHandler(payload), DataHandler(rest)))
  {
    var all := AsPaddedBinary(payload) + rest;
    assert all[..4] == U32AsBytes(|payload|);
    U32RoundTrip(|payload|);
    assert all[4..] == payload + rest;
    assert (payload + rest)[..|payload|] == payload;
    assert (payload + rest)[|payload|..] == rest;
  }

  /** `DataHandler.empty`: no bytes are left. */
  function Empty(d: DataHandler): (r: bool)
    ensures r <==> d.binaryData == []
  {
    |d.binaryData| == 0
  }

  /** `DataHandler.expect_empty`. */
  function ExpectEmpty(d: DataHandler): (r: Result<(), Error>)
    ensures r.Err? <==> d.binaryData != []
    ensures r.Err? ==> r.error == NotEmpty
  {
    if !Empty(d) then Err(NotEmpty) else Ok(())
  }

  /** `n` successive `pop_u8` calls. */
  function PopU8s(d: DataHandler, n: nat): (r: Result<(seq<nat>, DataHandler), Error>)
    decreases n
    ensures r.Err? <==> |d.binaryData| < n
    ensures r.Err? ==> r.error == FileTooShort
    ensures r.Ok? ==> r.value.0 == d.binaryData[..n] && r.value.1.binaryData == d.binaryData[n..]
  {
    if n == 0 then Ok(([], d))
    else
      var b :- PopU8(d);
      var bs :- PopU8s(b.1, n - 1);
      Ok(([b.0] + bs.0, bs.1))
  }

  /** The map record: dimensions and its two layers of cell codes. */
  datatype MapRecord = MapRecord(width: nat, height: nat, firstLayer: seq<nat>, secondLayer: seq<nat>)

  /** `Map.__init__`: width and height, then exactly 2·width·height bytes, the
      first half the ground layer and the second half the overlay layer. */
  function ParseMap(d: DataHandler): (r: Result<MapRecord, Error>)
    ensures |d.binaryData| < 8 ==> r == Err(FileTooShort)
    ensures 8 <= |d.binaryData| ==>
      var width := BinArrayToInt(d.binaryData[..4]);
      var height := BinArrayToInt(d.binaryData[4..8]);
      var size := height * width;
      && (r.Ok? <==> |d.binaryData| - 8 == 2 * size)
      && (r.Err? ==> r.error == InvalidMapLength)
      && (r.Ok? ==> r.value == MapRecord(width, height, d.binaryData[8..8 + size], d.binaryData[8 + size..]))
  {
    var w :- PopU32(d);
    var h :- PopU32(w.1);
    var size := h.0 * w.0;
    assert h.1.binaryData == d.binaryData[8..];
    assert d.binaryData[4..][..4] == d.binaryData[4..8];
    if |h.1.binaryData| != size * 2 then Err(InvalidMapLength)
    else
      var layers := PopLayers(h.1, size);
      assert h.1.binaryData[..size] == d.binaryData[8..8 + size];
      assert h.1.binaryData[size..] == d.binaryData[8 + size..];
      Ok(MapRecord(w.0, h.0, layers.0, layers.1))
  }

  /** The two layers of a map: `size` bytes each, with nothing left over. */
  function PopLayers(d: DataHandler, size: nat): (r: (seq<nat>, seq<nat>))
    requires |d.binaryData| == 2 * size
    ensures r == (d.binaryData[..size], d.binaryData[size..])
  {
    match PopU8s(d, size)
    case Err(_) => assert false; ([], [])
    case Ok(first) =>
      match PopU8s(first.1, size)
      case Err(_) => assert false; ([], [])
      case Ok(second) =>
        assert ExpectEmpty(second.1).Ok?;
        assert d.binaryData[size..][..size] == d.binaryData[size..];
        (first.0, second.0)
  }

  /** `ps` are the consecutive 8-byte pairs of `b`, each read as two raw
      `f32`s. */
  predicate PairsOf(b: seq<Byte>, ps: seq<(F32Bits, F32Bits)>) {
    && |b| == 8 * |ps|
    && forall i :: 0 <= i < |ps| ==> ps[i] == (b[8 * i..8 * i + 4], b[8 * i + 4..8 * i + 8])
  }

  /** A leading pair followed by the pairs of the rest are the pairs of the whole. */
  lemma PairsOfCons(b: seq<Byte>, rest: seq<(F32Bits, F32Bits)>)
    requires 8 <= |b| && PairsOf(b[8..], rest)
    ensures PairsOf(b, [(b[..4], b[4..8])] + rest)
  {
    var r := [(b[..4], b[4..8])] + rest;
    forall i | 1 <= i < |r|
      ensures r[i] == (b[8 * i..8 * i + 4], b[8 * i + 4..8 * i + 8])
    {
      assert r[i] == rest[i - 1];
      assert b[8..][8 * (i - 1)..8 * (i - 1) + 4] == b[8 * i..8 * i + 4];
      assert b[8..][8 * (i - 1) + 4..8 * (i - 1) + 8] == b[8 * i + 4..8 * i + 8];
    }
  }

  /** A unit's path: pairs of floats until the handler is empty. A trailing
      partial pair makes a `pop_f32` fail, so `expect_empty` after the loop
      never fires. */
  function ParsePath(d: DataHandler): (r: Result<seq<(F32Bits, F32Bits)>, Error>)
    ensures r.Ok? <==> |d.binaryData| % 8 == 0
    ensures r.Err? ==> r.error == FileTooShort
    ensures r.Ok? ==> PairsOf(d.binaryData, r.value)
    decreases |d.binaryData|
  {
    if Empty(d) then Ok([])
    else
      var b := d.binaryData;
      var x :- PopF32(d);
      var y :- PopF32(x.1);
      assert y.1.binaryData == b[8..] && y.0 == b[4..8];
      var rest :- ParsePath(y.1);
      PairsOfCons(b, rest);
      Ok([(x.0, y.0)] + rest)
  }

  /** The optional enemy point: a flag byte, then two floats if it is set and
      two ignored `u32`s if not, so always nine bytes. */
  function ParseEnemyPoint(d: DataHandler): (r: Result<(Option<(F32Bits, F32Bits)>, DataHandler), Error>)
    ensures r.Err? <==> |d.binaryData| < 9
    ensures r.Err? ==> r.error == FileTooShort
    ensures r.Ok? ==> r.value.1.binaryData == d.binaryData[9..]
    ensures r.Ok? ==> (r.value.0.Some? <==> d.binaryData[0] != 0)
    ensures r.Ok? && r.value.0.Some? ==> r.value.0.value == (d.binaryData[1..5], d.binaryData[5..9])
  {
    var flag :- PopU8(d);
    if flag.0 != 0 then
      var x :- PopF32(flag.1);
      var y :- PopF32(x.1);
      assert d.binaryData[1..][..4] == d.binaryData[1..5];
      assert d.binaryData[5..][..4] == d.binaryData[5..9];
      Ok((Some((x.0, y.0)), y.1))
    else
      var ignored1 :- PopU32(flag.1);
      var ignored2 :- PopU32(ignored1.1);
      Ok((None, ignored2.1))
  }

  datatype UnitRecord = UnitRecord(
    locationX: F32Bits, locationY: F32Bits, id: nat, entityType: nat,
    waypointIndex: nat, orientation: nat, teamId: nat, hp: nat, cooldown: nat,
    path: seq<(F32Bits, F32Bits)>, enemyPoint: Option<(F32Bits, F32Bits)>, task: seq<Byte>)

  /** The first four fields of a unit record: its location as two raw `f32`s,
      its id and its entity type byte, 13 bytes in all. */
  function PopUnitIdentity(d: DataHandler): (r: Result<((F32Bits, F32Bits, nat, nat), DataHandler), Error>)
    ensures r.Err? <==> |d.binaryData| < 13
    ensures r.Ok? ==>
      var b := d.binaryData;
      && r.value.1.binaryData == b[13..]
      && r.value.0 == (b[..4], b[4..8], BinArrayToInt(b[8..12]), b[12] as nat)
  {
    var b := d.binaryData;
    var x :- PopF32(d);
    var y :- PopF32(x.1);
    assert y.1.binaryData == b[8..] && y.0 == b[4..8];
    var id :- PopU32(y.1);
    assert id.1.binaryData == b[12..] && b[8..][..4] == b[8..12];
    var entityType :- PopU8(id.1);
    Ok(((x.0, y.0, id.0, entityType.0), entityType.1))
  }

  /** The five `u32` counters that follow: waypoint index, orientation, team
      id, hit points and cooldown, 20 bytes in all. */
  function PopUnitCounters(d: DataHandler): (r: Result<((nat, nat, nat, nat, nat), DataHandler), Error>)
    ensures r.Err? <==> |d.binaryData| < 20
    ensures r.Ok? ==>
      var b := d.binaryData;
      && r.value.1.binaryData == b[20..]
      && r.value.0 == (BinArrayToInt(b[..4]), BinArrayToInt(b[4..8]), BinArrayToInt(b[8..12]),
                       BinArrayToInt(b[12..16]), BinArrayToInt(b[16..20]))
  {
    var b := d.binaryData;
    var waypointIndex :- PopU32(d);
    var orientation :- PopU32(waypointIndex.1);
    assert orientation.1.binaryData == b[8..] && b[4..][..4] == b[4..8];
    var teamId :- PopU32(orientation.1);
    assert teamId.1.binaryData == b[12..] && b[8..][..4] == b[8..12];
    var hp :- PopU32(teamId.1);
    assert hp.1.binaryData == b[16..] && b[12..][..4] == b[12..16];
    var cooldown :- PopU32(hp.1);
    assert cooldown.1.binaryData == b[20..] && b[16..][..4] == b[16..20];
    Ok(((waypointIndex.0, orientation.0, teamId.0, hp.0, cooldown.0), cooldown.1))
  }

  /** The 33 fixed-width leading fields of a unit record. */
  function ParseUnitHead(d: DataHandler): (r: Result<(UnitRecord, DataHandler), Error>)
    ensures r.Err? <==> |d.binaryData| < 33
    ensures r.Ok? ==> r.value.1.binaryData == d.binaryData[33..]
    ensures r.Ok? ==>
      var u := r.value.0;
      && u.locationX == d.binaryData[..4] && u.locationY == d.binaryData[4..8]
      && u.id == BinArrayToInt(d.binaryData[8..12]) && u.entityType == d.binaryData[12]
      && u.waypointIndex == BinArrayToInt(d.binaryData[13..17])
      && u.orientation == BinArrayToInt(d.binaryData[17..21])
      && u.teamId == BinArrayToInt(d.binaryData[21..25])
      && u.hp == BinArrayToInt(d.binaryData[25..29])
      && u.cooldown == BinArrayToInt(d.binaryData[29..33])
  {
    var b := d.binaryData;
    var ident :- PopUnitIdentity(d);
    var counters :- PopUnitCounters(ident.1);
    var c := b[13..];
    assert c[..4] == b[13..17] && c[4..8] == b[17..21] && c[8..12] == b[21..25];
    assert c[12..16] == b[25..29] && c[16..20] == b[29..33] && c[20..] == b[33..];
    var (x, y, id, entityType) := ident.0;
    var (waypointIndex, orientation, teamId, hp, cooldown) := counters.0;
    Ok((UnitRecord(x, y, id, entityType, waypointIndex, orientation, teamId, hp, cooldown, [], None, []),
        counters.1))
  }

  /** The variable-width rest of a unit record: the padded path, the enemy
      point and the padded task bytes, with nothing left over. */
  function ParseUnitTail(d: DataHandler)
    : (r: Result<(seq<(F32Bits, F32Bits)>, Option<(F32Bits, F32Bits)>, seq<Byte>), Error>)
    ensures |d.binaryData| < 4 + 9 + 4 ==> r.Err?
  {
    var pathData :- PopPaddedDataHandler(d);
    assert |pathData.0.binaryData| + |pathData.1.binaryData| == |d.binaryData| - 4;
    var path :- ParsePath(pathData.0);
    var enemy :- ParseEnemyPoint(pathData.1);
    var taskData :- PopPaddedDataHandler(enemy.1);
    var _ :- ExpectEmpty(taskData.1);
    Ok((path, enemy.0, taskData.0.binaryData))
  }

  /** `Unit.__init__`: the fixed fields, then the variable-width rest. */
  function ParseUnit(d: DataHandler): (r: Result<UnitRecord, Error>)
    ensures |d.binaryData| < 33 + 4 + 9 + 4 ==> r.Err?
    ensures r.Ok? ==>
      (ParseUnitHead(d).Ok?
       && r.value.(path := [], enemyPoint := None, task := []) == ParseUnitHead(d).value.0)
  {
    var head :- ParseUnitHead(d);
    var tail :- ParseUnitTail(head.1);
    Ok(head.0.(path := tail.0, enemyPoint := tail.1, task := tail.2))
  }

  datatype BuildingRecord = BuildingRecord(x: nat, y: nat)

  /** `Building.__init__`: exactly two `u32`s. */
  function ParseBuilding(d: DataHandler): (r: Result<BuildingRecord, Error>)
    ensures r.Ok? <==> |d.binaryData| == 8
    ensures |d.binaryData| < 8 ==> r == Err(FileTooShort)
    ensures |d.binaryData| > 8 ==> r == Err(NotEmpty)
    ensures r.Ok? ==> r.value == BuildingRecord(BinArrayToInt(d.binaryData[..4]), BinArrayToInt(d.binaryData[4..]))
  {
    var x :- PopU32(d);
    var y :- PopU32(x.1);
    var _ :- ExpectEmpty(y.1);
    assert d.binaryData[4..][..4] == d.binaryData[4..];
    Ok(BuildingRecord(x.0, y.0))
  }

  /** Two `u32_as_bytes` encodings read back as the building they describe. */
  lemma BuildingRoundTrip(x: U32, y: U32)
    ensures ParseBuilding(DataHandler(U32AsBytes(x) + U32AsBytes(y))) == Ok(BuildingRecord(x, y))
  {
    var b := U32AsBytes(x) + U32AsBytes(y);
    assert b[..4] == U32AsBytes(x) && b[4..] == U32AsBytes(y);
    U32RoundTrip(x);
    U32RoundTrip(y);
  }

  datatype ProjectileRecord = ProjectileRecord(
    locationX: F32Bits, locationY: F32Bits, startPointX: F32Bits, startPointY: F32Bits,
    endPointX: F32Bits, endPointY: F32Bits, angle: F32Bits)

  /** `Projectile.__init__`: exactly seven floats. */
  function ParseProjectile(d: DataHandler): (r: Result<ProjectileRecord, Error>)
    ensures r.Ok? <==> |d.binaryData| == 28
    ensures |d.binaryData| < 28 ==> r == Err(FileTooShort)
    ensures |d.binaryData| > 28 ==> r == Err(NotEmpty)
    ensures r.Ok? ==>
      var b := d.binaryData;
      r.value == ProjectileRecord(b[0..4], b[4..8], b[8..12], b[12..16], b[16..20], b[20..24], b[24..28])
  {
    var locationX :- PopF32(d);
    var locationY :- PopF32(locationX.1);
    var startPointX :- PopF32(locationY.1);
    var startPointY :- PopF32(startPointX.1);
    var endPointX :- PopF32(startPointY.1);
    var endPointY :- PopF32(endPointX.1);
    var angle :- PopF32(endPointY.1);
    var _ :- ExpectEmpty(angle.1);
    var b := d.binaryData;
    assert b[4..][..4] == b[4..8] && b[8..][..4] == b[8..12] && b[12..][..4] == b[12..16];
    assert b[16..][..4] == b[16..20] && b[20..][..4] == b[20..24] && b[24..][..4] == b[24..28];
    Ok(ProjectileRecord(locationX.0, locationY.0, startPointX.0, startPointY.0, endPointX.0, endPointY.0, angle.0))
  }

  /** The `while not data.empty()` loops of `EntityHolder.__init__`: padded
      records, each handed to `parse`, until the handler is empty. */
  function ParseList<T>(d: DataHandler, parse: DataHandler -> Result<T, Error>): (r: Result<seq<T>, Error>)
    ensures d.binaryData == [] ==> r == Ok([])
    decreases |d.binaryData|
  {
    if Empty(d) then Ok([])
    else
      var record :- PopPaddedDataHandler(d);
      var item :- parse(record.0);
      var rest :- ParseList(record.1, parse);
      Ok([item] + rest)
  }

  /** Reading the padded records that `vec_as_bytes` writes gives back one
      parsed item per record, in order. */
  lemma {:induction false} ParseListRoundTrip<T>(items: seq<seq<Byte>>, values: seq<T>, parse: DataHandler -> Result<T, Error>)
    requires |items| == |values|
    requires forall i :: 0 <= i < |items| ==> |items[i]| < TwoTo32 && parse(DataHandler(items[i])) == Ok(values[i])
    ensures ParseList(DataHandler(PaddedList(items)), parse) == Ok(values)
    decreases |items|
  {
    if items != [] {
      PaddedRoundTrip(items[0], PaddedList(items[1..]));
      ParseListRoundTrip(items[1..], values[1..], parse);
      assert [values[0]] + values[1..] == values;
    }
  }

  /** `r` with `prefix` put in front of its value. */
  function Prepend<T>(prefix: seq<T>, r: Result<seq<T>, Error>): Result<seq<T>, Error> {
    match r
    case Ok(v) => Ok(prefix + v)
    case Err(e) => Err(e)
  }

  lemma PrependTwice<T>(prefix: seq<T>, x: T, r: Result<seq<T>, Error>)
    ensures Prepend(prefix, Prepend([x], r)) == Prepend(prefix + [x], r)
  {
    if r.Ok? {
      assert prefix + ([x] + r.value) == (prefix + [x]) + r.value;
    }
  }

  /** The same loop as `ParseList`, written as the Python writes it. */
  method ParseListLoop<T>(d: DataHandler, parse: DataHandler -> Result<T, Error>) returns (r: Result<seq<T>, Error>)
    ensures r == ParseList(d, parse)
  {
    var items: seq<T> := [];
    var data := d;
    assert Prepend(items, ParseList(data, parse)) == ParseList(d, parse) by {
      if ParseList(d, parse).Ok? {
        assert [] + ParseList(d, parse).value == ParseList(d, parse).value;
      }
    }
    while !Empty(data)
      invariant ParseList(d, parse) == Prepend(items, ParseList(data, parse))
      decreases |data.binaryData|
    {
      var record := PopPaddedDataHandler(data);
      if record.Err? {
        assert ParseList(data, parse) == Err(record.error);
        return Err(record.error);
      }
      var item := parse(record.value.0);
      if item.Err? {
        assert ParseList(data, parse) == Err(item.error);
        return Err(item.error);
      }
      assert ParseList(data, parse) == Prepend([item.value], ParseList(record.value.1, parse));
      PrependTwice(items, item.value, ParseList(record.value.1, parse));
      items := items + [item.value];
      data := record.value.1;
    }
    assert items + [] == items;
    return Ok(items);
  }

  datatype EntityHolderRecord = EntityHolderRecord(
    idCounter: nat, units: seq<UnitRecord>, projectiles: seq<ProjectileRecord>, buildings: seq<BuildingRecord>)

  /** `EntityHolder.__init__`: the id counter, then padded lists of units,
      projectiles and buildings, with nothing left over. */
  function ParseEntityHolder(d: DataHandler): (r: Result<EntityHolderRecord, Error>)
    ensures |d.binaryData| < 16 ==> r.Err?
    ensures r.Ok? ==> r.value.idCounter == BinArrayToInt(d.binaryData[..4])
  {
    var idCounter :- PopU32(d);
    var unitsData :- PopPaddedDataHandler(idCounter.1);
    var units :- ParseList(unitsData.0, ParseUnit);
    var projectilesData :- PopPaddedDataHandler(unitsData.1);
    var projectiles :- ParseList(projectilesData.0, ParseProjectile);
    var buildingsData :- PopPaddedDataHandler(projectilesData.1);
    var buildings :- ParseList(buildingsData.0, ParseBuilding);
    var _ :- ExpectEmpty(buildingsData.1);
    Ok(EntityHolderRecord(idCounter.0, units, projectiles, buildings))
  }

  /** `items` are encodings that `parse` reads back as `values`, one for one,
      and their padded records fit a `u32` length. */
  ghost predicate ListEncodes<T>(items: seq<seq<Byte>>, values: seq<T>, parse: DataHandler -> Result<T, Error>) {
    && |items| == |values| && PaddedTotal(items) < TwoTo32
    && forall i :: 0 <= i < |items| ==> |items[i]| < TwoTo32 && parse(DataHandler(items[i])) == Ok(values[i])
  }

  /** A `vec_as_bytes` field followed by anything: the list comes back and
      the rest is left. */
  lemma VecRoundTrip<T>(items: seq<seq<Byte>>, values: seq<T>, parse: DataHandler -> Result<T, Error>, rest: seq<Byte>)
    requires ListEncodes(items, values, parse)
    ensures PopPaddedDataHandler(DataHandler(VecAsBytes(items) + rest)) == Ok((DataHandler(PaddedList(items)), DataHandler(rest)))
    ensures ParseList(DataHandler(PaddedList(items)), parse) == Ok(values)
  {
    PaddedRoundTrip(PaddedList(items), rest);
    ParseListRoundTrip(items, values, parse);
  }

  /** An id counter followed by three `vec_as_bytes` lists reads back as the
      holder they encode. */
  lemma EntityHolderRoundTrip(
    idCounter: U32,
    units: seq<seq<Byte>>, unitValues: seq<UnitRecord>,
    projectiles: seq<seq<Byte>>, projectileValues: seq<ProjectileRecord>,
    buildings: seq<seq<Byte>>, buildingValues: seq<BuildingRecord>)
    requires ListEncodes(units, unitValues, ParseUnit)
    requires ListEncodes(projectiles, projectileValues, ParseProjectile)
    requires ListEncodes(buildings, buildingValues, ParseBuilding)
    ensures ParseEntityHolder(DataHandler(U32AsBytes(idCounter) + (VecAsBytes(units) + (VecAsBytes(projectiles) + VecAsBytes(buildings)))))
      == Ok(EntityHolderRecord(idCounter, unitValues, projectileValues, buildingValues))
  {
    var tail3 := VecAsBytes(buildings);
    var tail2 := VecAsBytes(projectiles) + tail3;
    var tail1 := VecAsBytes(units) + tail2;
    var all := U32AsBytes(idCounter) + tail1;
    assert PopU32(DataHandler(all)) == Ok((idCounter, DataHandler(tail1))) by {
      assert all[..4] == U32AsBytes(idCounter) && all[4..] == tail1;
      U32RoundTrip(idCounter);
    }
    assert PopPaddedDataHandler(DataHandler(tail1)) == Ok((DataHandler(PaddedList(units)), DataHandler(tail2)))
        && ParseList(DataHandler(PaddedList(units)), ParseUnit) == Ok(unitValues) by {
      VecRoundTrip(units, unitValues, ParseUnit, tail2);
    }
    assert PopPaddedDataHandler(DataHandler(tail2)) == Ok((DataHandler(PaddedList(projectiles)), DataHandler(tail3)))
        && ParseList(DataHandler(PaddedList(projectiles)), ParseProjectile) == Ok(projectileValues) by {
      VecRoundTrip(projectiles, projectileValues, ParseProjectile, tail3);
    }
    assert PopPaddedDataHandler(DataHandler(tail3)) == Ok((DataHandler(PaddedList(buildings)), DataHandler([])))
        && ParseList(DataHandler(PaddedList(buildings)), ParseBuilding) == Ok(buildingValues) by {
      assert tail3 + [] == tail3;
      VecRoundTrip(buildings, buildingValues, ParseBuilding, []);
    }
    EntityHolderStages(DataHandler(all), idCounter, DataHandler(tail1),
      DataHandler(PaddedList(units)), DataHandler(tail2), unitValues,
      DataHandler(PaddedList(projectiles)), DataHandler(tail3), projectileValues,
      DataHandler(PaddedList(buildings)), DataHandler([]), buildingValues);
  }

  /** `ParseEntityHolder` succeeds when each of its stages does. */
  lemma EntityHolderStages(
    d: DataHandler, idCounter: nat, d1: DataHandler,
    u: DataHandler, d2: DataHandler, unitValues: seq<UnitRecord>,
    p: DataHandler, d3: DataHandler, projectileValues: seq<ProjectileRecord>,
    b: DataHandler, d4: DataHandler, buildingValues: seq<BuildingRecord>)
    requires PopU32(d) == Ok((idCounter, d1))
    requires PopPaddedDataHandler(d1) == Ok((u, d2)) && ParseList(u, ParseUnit) == Ok(unitValues)
    requires PopPaddedDataHandler(d2) == Ok((p, d3)) && ParseList(p, ParseProjectile) == Ok(projectileValues)
    requires PopPaddedDataHandler(d3) == Ok((b, d4)) && ParseList(b, ParseBuilding) == Ok(buildingValues)
    requires d4.binaryData == []
    ensures ParseEntityHolder(d) == Ok(EntityHolderRecord(idCounter, unitValues, projectileValues, buildingValues))
  {
  }

  datatype SaveRecord = SaveRecord(gameMap: MapRecord, entityHolder: EntityHolderRecord)

  /** `GameState.__init__` without the file read: a padded map record and a
      padded entity-holder record, with nothing left over. */
  function ParseSave(d: DataHandler): (r: Result<SaveRecord, Error>)
    ensures |d.binaryData| < 4 + 8 + 4 + 16 ==> r.Err?
  {
    var mapData :- PopPaddedDataHandler(d);
    var gameMap :- ParseMap(mapData.0);
    var holderData :- PopPaddedDataHandler(mapData.1);
    var holder :- ParseEntityHolder(holderData.0);
    var _ :- ExpectEmpty(holderData.1);
    Ok(SaveRecord(gameMap, holder))
  }

  /** Two padded records that parse as a map and an entity holder read back
      as the save they make up. */
  lemma SaveRoundTrip(mapBytes: seq<Byte>, gameMap: MapRecord, holderBytes: seq<Byte>, holder: EntityHolderRecord)
    requires |mapBytes| < TwoTo32 && ParseMap(DataHandler(mapBytes)) == Ok(gameMap)
    requires |holderBytes| < TwoTo32 && ParseEntityHolder(DataHandler(holderBytes)) == Ok(holder)
    ensures ParseSave(DataHandler(AsPaddedBinary(mapBytes) + AsPaddedBinary(holderBytes))) == Ok(SaveRecord(gameMap, holder))
  {
    PaddedRoundTrip(mapBytes, AsPaddedBinary(holderBytes));
    PaddedRoundTrip(holderBytes, []);
    assert AsPaddedBinary(holderBytes) + [] == AsPaddedBinary(holderBytes);
  }
}
