/**
 * The process side of the IEC 60870-5-104 station: packing the replies to a general interrogation
 * (`inro_response`, `handle_inro_command100`) and executing the four commands (`handle_*_command45/46/49/50`).
 */
module Iec104Process {
  import opened Iec104Address
  import opened Sequences
  import opened Wrappers

  datatype Value = IntValue(i: int) | FloatValue(r: real)

  /** The fields of one configured register; `addr` is its key in the table. */
  datatype Point = Point(category: int, addr: string, val: Value, relation: string)

  datatype InfoObject = InfoObject(ioa: nat, val: Value)

  datatype Asdu = Asdu(typeId: int, cot: int, negative: bool, noo: int, objects: seq<InfoObject>)

  const ACT_CON := 7
  const ACT_TERM := 10
  const INROGEN := 20
  const UNKNOWN_IOA := 47
  const CATEGORIES: seq<int> := [1, 3, 5, 7, 9, 11, 13]
  const HEADERS := 12

  /** The constructor of the table accepts only addresses that `addr_in_hex` reads. */
  predicate Readable(addr: string) {
    AddrInHex(addr).Ok?
  }

  function Ioa(addr: string): nat
    requires Readable(addr)
  {
    AddrInHex(addr).value
  }

  // ---------- General interrogation ----------

  /** Octets of one information object: address, element and quality. */
  function ObjectSize(ty: int): (n: int)
    requires ty in CATEGORIES
    ensures 4 <= n <= 8
  {
    if ty == 1 || ty == 3 then 4 else if ty == 5 then 5 else if ty == 9 || ty == 11 then 6 else 8
  }

  /** `int((max_frame_size - 12) / len(call()))`, which truncates toward zero. */
  function Capacity(maxFrameSize: int, ty: int): int
    requires ty in CATEGORIES
  {
    if maxFrameSize >= HEADERS then (maxFrameSize - HEADERS) / ObjectSize(ty)
    else -((HEADERS - maxFrameSize) / ObjectSize(ty))
  }

  function FrameSize(f: Asdu, ty: int): int
    requires ty in CATEGORIES
  {
    HEADERS + |f.objects| * ObjectSize(ty)
  }

  /** Octets of the information element with its quality: SIQ, DIQ, VTI, BSI, NVA, SVA or a short float. */
  function ElementOctets(ty: int): int
    requires ty in CATEGORIES
  {
    match ty
    case 1 => 1
    case 3 => 1
    case 5 => 1 + 1
    case 7 => 4 + 1
    case 9 => 2 + 1
    case 11 => 2 + 1
    case _ => 4 + 1
  }

  /** APCI and data unit identifier take 6 octets each, every object 3 for its address and those of its element. */
  lemma {:induction false} FrameOctets(f: Asdu, ty: int)
    requires ty in CATEGORIES
    ensures FrameSize(f, ty) == 6 + 6 + |f.objects| * (3 + ElementOctets(ty))
  {
  }

  ghost predicate ReadableAll(points: seq<Point>) {
    forall k | 0 <= k < |points| :: Readable(points[k].addr)
  }

  /** The objects of the points of one category, in the order of the points. */
  function Select(points: seq<Point>, ty: int): seq<InfoObject>
    requires ReadableAll(points)
  {
    if points == [] then []
    else if points[0].category != ty then Select(points[1..], ty)
    else [InfoObject(Ioa(points[0].addr), points[0].val)] + Select(points[1..], ty)
  }

  function ObjectsOf(frames: seq<Asdu>): seq<InfoObject> {
    if frames == [] then [] else frames[0].objects + ObjectsOf(frames[1..])
  }

  lemma {:induction false} ObjectsOfConcat(a: seq<Asdu>, b: seq<Asdu>)
    ensures ObjectsOf(a + b) == ObjectsOf(a) + ObjectsOf(b)
  {
    if a == [] {
      assert a + b == b;
    } else {
      assert (a + b)[1..] == a[1..] + b;
      ObjectsOfConcat(a[1..], b);
    }
  }

  /** The objects of the replies of one type. */
  function ObjectsOfType(frames: seq<Asdu>, ty: int): seq<InfoObject> {
    if frames == [] then []
    else if frames[0].typeId != ty then ObjectsOfType(frames[1..], ty)
    else frames[0].objects + ObjectsOfType(frames[1..], ty)
  }

  lemma {:induction false} ObjectsOfTypeConcat(a: seq<Asdu>, b: seq<Asdu>, ty: int)
    ensures ObjectsOfType(a + b, ty) == ObjectsOfType(a, ty) + ObjectsOfType(b, ty)
  {
    if a == [] {
      assert a + b == b;
    } else {
      assert (a + b)[1..] == a[1..] + b;
      ObjectsOfTypeConcat(a[1..], b, ty);
      Assoc(a[0].objects, ObjectsOfType(a[1..], ty), ObjectsOfType(b, ty));
    }
  }

  /** Replies with the cause of an interrogation; those that carry objects are of type `ty`. */
  ghost predicate AllOfType(frames: seq<Asdu>, ty: int) {
    forall k | 0 <= k < |frames| ::
      frames[k].cot == 20 && !frames[k].negative && (frames[k].objects == [] || frames[k].typeId == ty)
  }

  lemma {:induction false} OneTypeOnly(frames: seq<Asdu>, ty: int, other: int)
    requires AllOfType(frames, ty)
    ensures ObjectsOfType(frames, other) == if other == ty then ObjectsOf(frames) else []
  {
    if frames != [] {
      OneTypeOnly(frames[1..], ty, other);
      assert [] + ObjectsOf(frames[1..]) == ObjectsOf(frames[1..]);
    }
  }

  lemma {:induction false} ObjectsOfAppend(a: seq<Asdu>, f: Asdu)
    ensures ObjectsOf(a + [f]) == ObjectsOf(a) + f.objects
  {
    ObjectsOfConcat(a, [f]);
    assert ObjectsOf([f]) == f.objects + [];
  }

  /** A reply that says what it carries and fits the frame. */
  predicate WellFormed(f: Asdu, ty: int, maxFrameSize: int)
    requires ty in CATEGORIES
  {
    && f.typeId == ty && f.cot == INROGEN && !f.negative
    && f.objects != [] && f.noo == |f.objects|
    && FrameSize(f, ty) <= maxFrameSize
  }

  const EMPTY_REPLY := Asdu(5, INROGEN, false, 1, [])

  lemma {:induction false} Fits(n: int, maxFrameSize: int, ty: int)
    requires ty in CATEGORIES && 0 <= n
    ensures 1 <= n <= Capacity(maxFrameSize, ty) ==> HEADERS + n * ObjectSize(ty) <= maxFrameSize
    ensures 0 <= Capacity(maxFrameSize, ty) < n ==> HEADERS + n * ObjectSize(ty) > maxFrameSize
  {
    var size, cap := ObjectSize(ty), Capacity(maxFrameSize, ty);
    if 1 <= n <= cap {
      assert n * size <= cap * size;
    } else if 0 <= cap < n {
      assert (cap + 1) * size <= n * size;
    }
  }

  /** Full replies, as all but the last are when there is room. */
  ghost predicate AllFull(frames: seq<Asdu>, ty: int, maxFrameSize: int)
    requires ty in CATEGORIES
  {
    forall k | 0 <= k < |frames| ::
      WellFormed(frames[k], ty, maxFrameSize) && |frames[k].objects| == Capacity(maxFrameSize, ty)
  }

  /** A reply under construction. */
  predicate Growing(f: Asdu, ty: int) {
    f == EMPTY_REPLY || (f.objects != [] && f == Asdu(ty, INROGEN, false, |f.objects|, f.objects))
  }

  lemma {:induction false} FlushKeepsObjects(frames: seq<Asdu>, f: Asdu, later: seq<InfoObject>)
    ensures ObjectsOf(frames + [f]) + EMPTY_REPLY.objects + later == ObjectsOf(frames) + f.objects + later
  {
    ObjectsOfAppend(frames, f);
    assert ObjectsOf(frames + [f]) + [] == ObjectsOf(frames + [f]);
  }

  lemma {:induction false} GrowKeepsObjects(
      done: seq<InfoObject>, here: seq<InfoObject>, item: InfoObject, later: seq<InfoObject>)
    ensures done + (here + [item]) + later == done + here + ([item] + later)
  {
    Assoc(done, here, [item]);
    Assoc(done + here, [item], later);
  }

  /** Adding a finished reply: it is of the type, and full when there is room for an object. */
  lemma {:induction false} Flushed(frames: seq<Asdu>, f: Asdu, ty: int, maxFrameSize: int)
    requires ty in CATEGORIES && Growing(f, ty) && AllOfType(frames, ty)
    requires Capacity(maxFrameSize, ty) >= 1 ==>
               |f.objects| == Capacity(maxFrameSize, ty) && AllFull(frames, ty, maxFrameSize)
    ensures AllOfType(frames + [f], ty)
    ensures Capacity(maxFrameSize, ty) >= 1 ==> AllFull(frames + [f], ty, maxFrameSize)
  {
    Fits(|f.objects|, maxFrameSize, ty);
  }

  /**
   * `inro_response`. The replies carry exactly the points of the category, in order. With room for an object
   * every reply is well-formed and every reply but the last is full; without, the first reply is empty.
   */
  method InroResponse(sortedReg: seq<Point>, ty: int, maxFrameSize: int) returns (respList: seq<Asdu>)
    requires ty in CATEGORIES && ReadableAll(sortedReg)
    ensures ObjectsOf(respList) == Select(sortedReg, ty) && AllOfType(respList, ty)
    ensures Capacity(maxFrameSize, ty) >= 1 ==>
              && (forall k | 0 <= k < |respList| :: WellFormed(respList[k], ty, maxFrameSize))
              && (forall k | 0 <= k < |respList| - 1 :: |respList[k].objects| == Capacity(maxFrameSize, ty))
    ensures Select(sortedReg, ty) == [] ==> respList == []
    ensures Capacity(maxFrameSize, ty) <= 0 && Select(sortedReg, ty) != [] ==>
              respList != [] && respList[0] == Asdu(5, 20, false, 1, [])
  {
    respList := [];
    var resp, counter, rest := EMPTY_REPLY, 0, sortedReg;
    var cap := Capacity(maxFrameSize, ty);
    while rest != []
      invariant ReadableAll(rest)
      invariant ObjectsOf(respList) + resp.objects + Select(rest, ty) == Select(sortedReg, ty)
      invariant Growing(resp, ty) && counter == |resp.objects| && AllOfType(respList, ty)
      invariant respList != [] ==> Select(sortedReg, ty) != []
      invariant cap >= 1 ==> counter <= cap && AllFull(respList, ty, maxFrameSize)
      invariant cap <= 0 ==> if respList == [] then counter == 0 else respList[0] == EMPTY_REPLY
      decreases |rest|
    {
      var dev := rest[0];
      rest := rest[1..];
      if dev.category == ty {
        var item := InfoObject(Ioa(dev.addr), dev.val);
        if counter >= cap {
          FlushKeepsObjects(respList, resp, [item] + Select(rest, ty));
          Flushed(respList, resp, ty, maxFrameSize);
          respList := respList + [resp];
          counter, resp := 0, EMPTY_REPLY;
        }
        GrowKeepsObjects(ObjectsOf(respList), resp.objects, item, Select(rest, ty));
        counter := counter + 1;
        resp := resp.(typeId := ty, objects := resp.objects + [item], noo := counter);
      }
    }
    if counter > 0 {
      ObjectsOfAppend(respList, resp);
      Fits(counter, maxFrameSize, ty);
      respList := respList + [resp];
    }
  }

  /** All reported categories, grouped by type. */
  function Report(points: seq<Point>): seq<InfoObject>
    requires ReadableAll(points)
  {
    Select(points, 1) + Select(points, 3) + Select(points, 5) + Select(points, 7) +
    Select(points, 9) + Select(points, 11) + Select(points, 13)
  }

  predicate KnownQualifier(qoi: int) {
    qoi == 0 || 20 <= qoi <= 36
  }

  function Interrogation(cot: int, qoi: int): Asdu {
    Asdu(100, cot, false, 1, [InfoObject(0, IntValue(qoi))])
  }

  /** Replies that are all well-formed for their own type. */
  ghost predicate AllFit(frames: seq<Asdu>, maxFrameSize: int) {
    forall k | 0 <= k < |frames| ::
      frames[k].typeId in CATEGORIES && WellFormed(frames[k], frames[k].typeId, maxFrameSize)
  }

  lemma {:induction false} ConcatFits(a: seq<Asdu>, b: seq<Asdu>, maxFrameSize: int)
    ensures AllFit(a + b, maxFrameSize) <==> AllFit(a, maxFrameSize) && AllFit(b, maxFrameSize)
  {
    assert forall k | 0 <= k < |a| :: (a + b)[k] == a[k];
    assert forall k | 0 <= k < |b| :: (a + b)[|a| + k] == b[k];
  }

  /** The maximum frame size has room for an object, if there are objects of the category. */
  predicate HasRoom(points: seq<Point>, maxFrameSize: int, ty: int)
    requires ty in CATEGORIES && ReadableAll(points)
  {
    Select(points, ty) == [] || Capacity(maxFrameSize, ty) >= 1
  }

  /** Grouped by type: types never decrease from reply to reply, and none exceeds `ty`. */
  ghost predicate GroupedUpTo(frames: seq<Asdu>, ty: int) {
    && (forall i, j | 0 <= i < j < |frames| :: frames[i].typeId <= frames[j].typeId)
    && (forall k | 0 <= k < |frames| :: frames[k].typeId <= ty)
  }

  lemma {:induction false} GroupedConcat(a: seq<Asdu>, b: seq<Asdu>, before: int, ty: int, maxFrameSize: int)
    requires GroupedUpTo(a, before) && before <= ty && ty in CATEGORIES && AllFit(b, maxFrameSize) && AllOfType(b, ty)
    ensures GroupedUpTo(a + b, ty)
  {
    assert forall k | 0 <= k < |a| :: (a + b)[k] == a[k];
    assert forall k | 0 <= k < |b| :: (a + b)[|a| + k] == b[k] && b[k].typeId == ty;
  }

  /** Everything up to category `ty` has been packed: the objects of each type are the points of that category. */
  ghost predicate Packed(answers: seq<Asdu>, points: seq<Point>, ty: int)
    requires ReadableAll(points)
  {
    forall t | t in CATEGORIES :: ObjectsOfType(answers, t) == if t <= ty then Select(points, t) else []
  }

  /** `ty` is the category after `last`. */
  predicate Follows(last: int, ty: int) {
    ty in CATEGORIES && (ty == last + 2 || (ty == 1 && last == 0))
  }

  lemma {:induction false} TypePacked(
      before: seq<Asdu>, more: seq<Asdu>, points: seq<Point>, last: int, ty: int, t: int)
    requires ReadableAll(points) && Follows(last, ty) && t in CATEGORIES && AllOfType(more, ty)
    requires ObjectsOf(more) == Select(points, ty)
    requires ObjectsOfType(before, t) == if t <= last then Select(points, t) else []
    ensures ObjectsOfType(before + more, t) == if t <= ty then Select(points, t) else []
  {
    ObjectsOfTypeConcat(before, more, t);
    OneTypeOnly(more, ty, t);
    var objects := Select(points, t);
    assert [] + objects == objects && objects + [] == objects;
  }

  lemma {:induction false} PackedConcat(before: seq<Asdu>, more: seq<Asdu>, points: seq<Point>, last: int, ty: int)
    requires ReadableAll(points) && AllOfType(more, ty) && ObjectsOf(more) == Select(points, ty)
    requires Follows(last, ty) && Packed(before, points, last)
    ensures Packed(before + more, points, ty)
  {
    forall t | t in CATEGORIES
      ensures ObjectsOfType(before + more, t) == if t <= ty then Select(points, t) else []
    {
      TypePacked(before, more, points, last, ty, t);
    }
  }

  /** What the replies up to category `ty` are; `fit` says whether there was room for them. */
  ghost predicate UpTo(answers: seq<Asdu>, points: seq<Point>, maxFrameSize: int, ty: int,
                       objects: seq<InfoObject>, fit: bool)
    requires ReadableAll(points)
  {
    && ObjectsOf(answers) == objects && Packed(answers, points, ty)
    && (AllFit(answers, maxFrameSize) <==> fit) && (fit ==> GroupedUpTo(answers, ty))
  }

  lemma {:induction false} NothingPacked(points: seq<Point>, maxFrameSize: int)
    requires ReadableAll(points)
    ensures UpTo([], points, maxFrameSize, 0, [], true)
  {
  }

  lemma {:induction false} CategoryAdded(
      before: seq<Asdu>, more: seq<Asdu>, points: seq<Point>, maxFrameSize: int, last: int, ty: int,
      objects: seq<InfoObject>, fit: bool)
    requires ReadableAll(points) && Follows(last, ty) && UpTo(before, points, maxFrameSize, last, objects, fit)
    requires AllOfType(more, ty) && ObjectsOf(more) == Select(points, ty)
    requires AllFit(more, maxFrameSize) <==> HasRoom(points, maxFrameSize, ty)
    ensures UpTo(before + more, points, maxFrameSize, ty, objects + Select(points, ty),
                 fit && HasRoom(points, maxFrameSize, ty))
  {
    ObjectsOfConcat(before, more);
    ConcatFits(before, more, maxFrameSize);
    PackedConcat(before, more, points, last, ty);
    if fit && HasRoom(points, maxFrameSize, ty) {
      GroupedConcat(before, more, last, ty, maxFrameSize);
    }
  }

  /** The replies of one category, added to those before. */
  method AddCategory(sortedReg: seq<Point>, ty: int, maxFrameSize: int, before: seq<Asdu>,
                     ghost last: int, ghost objects: seq<InfoObject>, ghost fit: bool)
    returns (answers: seq<Asdu>)
    requires ReadableAll(sortedReg) && Follows(last, ty)
    requires UpTo(before, sortedReg, maxFrameSize, last, objects, fit)
    ensures UpTo(answers, sortedReg, maxFrameSize, ty, objects + Select(sortedReg, ty),
                 fit && HasRoom(sortedReg, maxFrameSize, ty))
  {
    var more := InroResponse(sortedReg, ty, maxFrameSize);
    CategoryAdded(before, more, sortedReg, maxFrameSize, last, ty, objects, fit);
    answers := before + more;
  }

  predicate HasRoomForAll(points: seq<Point>, maxFrameSize: int)
    requires ReadableAll(points)
  {
    && HasRoom(points, maxFrameSize, 1) && HasRoom(points, maxFrameSize, 3) && HasRoom(points, maxFrameSize, 5)
    && HasRoom(points, maxFrameSize, 7) && HasRoom(points, maxFrameSize, 9) && HasRoom(points, maxFrameSize, 11)
    && HasRoom(points, maxFrameSize, 13)
  }

  method StationReplies(sortedReg: seq<Point>, maxFrameSize: int) returns (answers: seq<Asdu>)
    requires ReadableAll(sortedReg)
    ensures UpTo(answers, sortedReg, maxFrameSize, 13, Report(sortedReg), HasRoomForAll(sortedReg, maxFrameSize))
  {
    answers := [];
    NothingPacked(sortedReg, maxFrameSize);
    ghost var objects, fit := [], true;
    answers := AddCategory(sortedReg, 1, maxFrameSize, answers, 0, objects, fit);
    objects, fit := objects + Select(sortedReg, 1), fit && HasRoom(sortedReg, maxFrameSize, 1);
    answers := AddCategory(sortedReg, 3, maxFrameSize, answers, 1, objects, fit);
    objects, fit := objects + Select(sortedReg, 3), fit && HasRoom(sortedReg, maxFrameSize, 3);
    answers := AddCategory(sortedReg, 5, maxFrameSize, answers, 3, objects, fit);
    objects, fit := objects + Select(sortedReg, 5), fit && HasRoom(sortedReg, maxFrameSize, 5);
    answers := AddCategory(sortedReg, 7, maxFrameSize, answers, 5, objects, fit);
    objects, fit := objects + Select(sortedReg, 7), fit && HasRoom(sortedReg, maxFrameSize, 7);
    answers := AddCategory(sortedReg, 9, maxFrameSize, answers, 7, objects, fit);
    objects, fit := objects + Select(sortedReg, 9), fit && HasRoom(sortedReg, maxFrameSize, 9);
    answers := AddCategory(sortedReg, 11, maxFrameSize, answers, 9, objects, fit);
    objects, fit := objects + Select(sortedReg, 11), fit && HasRoom(sortedReg, maxFrameSize, 11);
    answers := AddCategory(sortedReg, 13, maxFrameSize, answers, 11, objects, fit);
    objects, fit := objects + Select(sortedReg, 13), fit && HasRoom(sortedReg, maxFrameSize, 13);
    assert [] + Select(sortedReg, 1) == Select(sortedReg, 1);
    assert objects == Report(sortedReg) && fit == HasRoomForAll(sortedReg, maxFrameSize);
  }

  /**
   * `handle_inro_command100` on the naturally sorted registers: between confirmation and termination, the whole
   * report for a station interrogation and nothing for a group. Replies of each type carry exactly the points of that
   * category, in order. The frames are all well-formed, within the maximum size and grouped by type if and only if
   * that has room for one object of each category present.
   */
  method HandleInro(cot: int, qoi: int, sortedReg: seq<Point>, maxFrameSize: int)
    returns (replies: seq<Asdu>, ghost answers: seq<Asdu>)
    requires ReadableAll(sortedReg)
    ensures cot != 6 || !KnownQualifier(qoi) ==> replies == []
    ensures cot == 6 && KnownQualifier(qoi) ==>
              && replies == [Interrogation(ACT_CON, qoi)] + answers + [Interrogation(ACT_TERM, qoi)]
              && (qoi != 20 ==> answers == [])
              && (qoi == 20 ==> ObjectsOf(answers) == Report(sortedReg))
              && (qoi == 20 ==> forall ty | ty in CATEGORIES :: ObjectsOfType(answers, ty) == Select(sortedReg, ty))
              && (qoi == 20 ==> (AllFit(answers, maxFrameSize) && GroupedUpTo(answers, 13)
                                 <==> HasRoomForAll(sortedReg, maxFrameSize)))
    ensures cot != 6 || (qoi != 0 && !(20 <= qoi <= 36)) ==> replies == []
    ensures cot == 6 && (qoi == 0 || 20 <= qoi <= 36) ==>
              && |replies| >= 2 && replies[0] == Asdu(100, 7, false, 1, [InfoObject(0, IntValue(qoi))])
              && replies[|replies| - 1] == Asdu(100, 10, false, 1, [InfoObject(0, IntValue(qoi))])
  {
    answers := [];
    if cot != 6 || !KnownQualifier(qoi) {
      return [], answers;
    }
    replies := [Interrogation(ACT_CON, qoi)];
    if qoi == 20 {
      var packed := StationReplies(sortedReg, maxFrameSize);
      answers := packed;
      replies := replies + packed;
    }
    replies := replies + [Interrogation(ACT_TERM, qoi)];
  }

  // ---------- Each register exactly once ----------

  /** How many reported objects carry the address. */
  function CountIoa(objects: seq<InfoObject>, ioa: nat): nat {
    if objects == [] then 0 else (if objects[0].ioa == ioa then 1 else 0) + CountIoa(objects[1..], ioa)
  }

  lemma {:induction false} CountIoaConcat(a: seq<InfoObject>, b: seq<InfoObject>, ioa: nat)
    ensures CountIoa(a + b, ioa) == CountIoa(a, ioa) + CountIoa(b, ioa)
  {
    if a == [] {
      assert a + b == b;
    } else {
      assert (a + b)[1..] == a[1..] + b;
      CountIoaConcat(a[1..], b, ioa);
    }
  }

  ghost predicate DistinctAddresses(points: seq<Point>)
    requires ReadableAll(points)
  {
    forall i, j | 0 <= i < j < |points| :: Ioa(points[i].addr) != Ioa(points[j].addr)
  }

  lemma {:induction false} ReportConcat(points: seq<Point>, ioa: nat)
    requires ReadableAll(points)
    ensures CountIoa(Report(points), ioa) ==
            CountIoa(Select(points, 1), ioa) + CountIoa(Select(points, 3), ioa) + CountIoa(Select(points, 5), ioa) +
            CountIoa(Select(points, 7), ioa) + CountIoa(Select(points, 9), ioa) + CountIoa(Select(points, 11), ioa) +
            CountIoa(Select(points, 13), ioa)
  {
    var s1, s3, s5, s7 := Select(points, 1), Select(points, 3), Select(points, 5), Select(points, 7);
    var s9, s11, s13 := Select(points, 9), Select(points, 11), Select(points, 13);
    CountIoaConcat(s1, s3, ioa);
    CountIoaConcat(s1 + s3, s5, ioa);
    CountIoaConcat(s1 + s3 + s5, s7, ioa);
    CountIoaConcat(s1 + s3 + s5 + s7, s9, ioa);
    CountIoaConcat(s1 + s3 + s5 + s7 + s9, s11, ioa);
    CountIoaConcat(s1 + s3 + s5 + s7 + s9 + s11, s13, ioa);
  }

  /** How many points of the reported categories have the address. */
  function Sharing(points: seq<Point>, ioa: nat): nat
    requires ReadableAll(points)
  {
    if points == [] then 0
    else
      (if points[0].category in CATEGORIES && Ioa(points[0].addr) == ioa then 1 else 0) + Sharing(points[1..], ioa)
  }

  lemma {:induction false} SelectStep(points: seq<Point>, ty: int, ioa: nat)
    requires ReadableAll(points) && points != []
    ensures CountIoa(Select(points, ty), ioa)
         == (if points[0].category == ty && Ioa(points[0].addr) == ioa then 1 else 0)
            + CountIoa(Select(points[1..], ty), ioa)
  {
  }

  /** Every register of the reported categories is reported, none more often than it is configured, and no other. */
  lemma {:induction false} ReportedAsOften(points: seq<Point>, ioa: nat)
    requires ReadableAll(points)
    ensures CountIoa(Report(points), ioa) == Sharing(points, ioa)
  {
    if points == [] {
      assert Report(points) == [];
    } else {
      ReportedAsOften(points[1..], ioa);
      assert Sharing(points, ioa) == Sharing(points[1..], ioa)
          + (if points[0].category in CATEGORIES && Ioa(points[0].addr) == ioa then 1 else 0);
      ReportConcat(points, ioa);
      ReportConcat(points[1..], ioa);
      SelectStep(points, 1, ioa);
      SelectStep(points, 3, ioa);
      SelectStep(points, 5, ioa);
      SelectStep(points, 7, ioa);
      SelectStep(points, 9, ioa);
      SelectStep(points, 11, ioa);
      SelectStep(points, 13, ioa);
    }
  }

  lemma {:induction false} SharingNone(points: seq<Point>, ioa: nat)
    requires ReadableAll(points)
    ensures Sharing(points, ioa) == 0 <==>
            forall k | 0 <= k < |points| && points[k].category in CATEGORIES :: Ioa(points[k].addr) != ioa
  {
    if points != [] {
      SharingNone(points[1..], ioa);
      assert forall k | 0 <= k < |points| - 1 :: points[1..][k] == points[k + 1];
    }
  }

  /** No other point of the reported categories has the address of point `i`. */
  ghost predicate AloneAt(points: seq<Point>, i: nat)
    requires ReadableAll(points) && i < |points|
  {
    forall j | 0 <= j < |points| && j != i && points[j].category in CATEGORIES ::
      Ioa(points[j].addr) != Ioa(points[i].addr)
  }

  lemma {:induction false} SharingOne(points: seq<Point>, i: nat)
    requires ReadableAll(points) && i < |points| && points[i].category in CATEGORIES
    ensures Sharing(points, Ioa(points[i].addr)) == 1 <==> AloneAt(points, i)
  {
    var rest, ioa := points[1..], Ioa(points[i].addr);
    SharingNone(rest, ioa);
    assert forall k | 0 <= k < |rest| :: rest[k] == points[k + 1];
    if i > 0 {
      assert rest[i - 1] == points[i];
      SharingOne(rest, i - 1);
      if AloneAt(rest, i - 1) {
        assert AloneAt(points, i) <==> !(points[0].category in CATEGORIES && Ioa(points[0].addr) == ioa) by {
          forall j | 0 < j < |points| && j != i && points[j].category in CATEGORIES
            ensures Ioa(points[j].addr) != ioa
          {
            assert rest[j - 1] == points[j];
          }
        }
      } else {
        var j :| 0 <= j < |rest| && j != i - 1 && rest[j].category in CATEGORIES && Ioa(rest[j].addr) == ioa;
        assert points[j + 1] == rest[j];
      }
    }
  }

  lemma {:induction false} SelectedIn(points: seq<Point>, i: nat)
    requires ReadableAll(points) && i < |points|
    ensures InfoObject(Ioa(points[i].addr), points[i].val) in Select(points, points[i].category)
  {
    if i > 0 {
      SelectedIn(points[1..], i - 1);
    }
  }

  /** A register of these categories is reported with its value, once if and only if it is alone at its address. */
  lemma {:induction false} IsReported(points: seq<Point>, i: nat)
    requires ReadableAll(points) && i < |points| && points[i].category in CATEGORIES
    ensures InfoObject(Ioa(points[i].addr), points[i].val) in Report(points)
    ensures CountIoa(Report(points), Ioa(points[i].addr)) == 1 <==> AloneAt(points, i)
  {
    SelectedIn(points, i);
    ReportedAsOften(points, Ioa(points[i].addr));
    SharingOne(points, i);
  }

  /** With distinct addresses an interrogation reports each register of its categories once, and no other. */
  lemma {:induction false} ReportedOnce(points: seq<Point>, i: nat)
    requires ReadableAll(points) && DistinctAddresses(points) && i < |points|
    ensures var p := points[i];
            && CountIoa(Report(points), Ioa(p.addr)) == (if p.category in CATEGORIES then 1 else 0)
            && (p.category in CATEGORIES ==> InfoObject(Ioa(p.addr), p.val) in Report(points))
  {
    if points[i].category in CATEGORIES {
      IsReported(points, i);
    } else {
      ReportedAsOften(points, Ioa(points[i].addr));
      SharingNone(points, Ioa(points[i].addr));
    }
  }

  // ---------- Commands ----------

  type Table = map<string, Point>

  /** A command ASDU of type 45, 46, 49 or 50, as dissected. */
  datatype Command = Command(ty: int, ioa: nat, cot: int, sq: int, noo: int, lenApdu: int, val: Value)

  datatype Executed = Executed(table: Table, replies: seq<Asdu>)

  predicate IsCommandType(ty: int) {
    ty == 45 || ty == 46 || ty == 49 || ty == 50
  }

  /** `check_asdu_45/46/49/50` in control direction. */
  predicate Checked(c: Command) {
    IsCommandType(c.ty) && c.sq == 0 && (c.cot == 6 || c.cot == 8) && c.noo == 1 && (c.ty == 45 ==> c.lenApdu == 14)
  }

  /** The monitoring type that reports the related point, and with which cause. */
  function ReportType(ty: int): int {
    if ty == 45 then 1 else if ty == 46 then 3 else if ty == 49 then 11 else 13
  }

  function ReportCause(ty: int): int {
    if ty == 45 || ty == 46 then 11 else 3
  }

  function Reply(c: Command, cot: int, negative: bool): Asdu {
    Asdu(c.ty, cot, negative, 1, [InfoObject(c.ioa, c.val)])
  }

  function RelatedReport(c: Command, ioa: nat): Asdu {
    Asdu(ReportType(c.ty), ReportCause(c.ty), false, 1, [InfoObject(ioa, c.val)])
  }

  /** Points know their key, and their relations are keys (`check_registers`). */
  ghost predicate Linked(t: Table) {
    forall a | a in t :: t[a].addr == a && (t[a].relation == "" || t[a].relation in t)
  }

  /** What the constructor and `check_registers` leave. */
  ghost predicate Configured(t: Table) {
    Linked(t) && forall a | a in t :: Allowed(a)
  }

  /** The assignments to the commanded and the related point, and the replies after the confirmation. */
  function ExecuteRelated(t: Table, a: string, c: Command): Executed
    requires a in t && Readable(t[a].relation)
  {
    var ioa := Ioa(t[a].relation);
    var rel := HexInAddr(ioa);
    var t1 := t[a := t[a].(val := c.val)];
    if rel !in t1 then Executed(t1, [])
    else Executed(t1[rel := t1[rel].(val := c.val)], [RelatedReport(c, ioa), Reply(c, ACT_TERM, false)])
  }

  /** The four command handlers, which differ in type, report type and report cause only. */
  function Execute(t: Table, c: Command): Executed
    requires Configured(t)
  {
    var a := HexInAddr(c.ioa);
    if !Checked(c) || c.cot != 6 then Executed(t, [])
    else if a !in t then Executed(t, [Reply(c, UNKNOWN_IOA, false)])
    else if t[a].category != c.ty then Executed(t, [Reply(c, ACT_CON, true)])
    else if t[a].relation == "" then Executed(t, [Reply(c, ACT_CON, false), Reply(c, ACT_TERM, false)])
    else
      var r := ExecuteRelated(t, a, c);
      r.(replies := [Reply(c, ACT_CON, false)] + r.replies)
  }

  /** An address in the spelling `hex_in_addr` produces. */
  predicate Normal(addr: string) {
    Readable(addr) && HexInAddr(Ioa(addr)) == addr
  }

  lemma {:induction false} CanonicalIsNormal(a: nat, b: nat)
    requires a < 0x1_0000 && b < 256
    ensures Normal(Canonical(a, b))
  {
    StringRoundTrip(a, b);
  }

  /** The command reaches a point of its own type that has a relation. */
  predicate Acts(t: Table, c: Command) {
    var a := HexInAddr(c.ioa);
    Checked(c) && c.cot == 6 && a in t && t[a].category == c.ty && t[a].relation != ""
  }

  lemma {:induction false} UpdateBoth(t: Table, a: string, rel: string, val: Value)
    requires Linked(t) && a in t && rel in t
    ensures var t1 := t[a := t[a].(val := val)];
            var t2 := t1[rel := t1[rel].(val := val)];
            && t2.Keys == t.Keys && Linked(t2)
            && forall b | b in t :: t2[b] == if b == a || b == rel then t[b].(val := val) else t[b]
  {
  }

  /** The key under which the handler looks for the related point: its address in the spelling of `hex_in_addr`. */
  function Sought(t: Table, c: Command): string
    requires Configured(t) && Acts(t, c)
  {
    HexInAddr(Ioa(t[HexInAddr(c.ioa)].relation))
  }

  /**
   * A command that acts changes exactly the commanded point and the point under the sought key, to the commanded
   * value. It is confirmed; report and termination follow if there is such a point.
   */
  lemma {:induction false} CommandUpdatesBoth(t: Table, c: Command)
    requires Configured(t) && Acts(t, c)
    ensures var a, t' := HexInAddr(c.ioa), Execute(t, c).table;
            && t'.Keys == t.Keys && Configured(t')
            && forall b | b in t :: t'[b] == if b == a || b == Sought(t, c) then t[b].(val := c.val) else t[b]
    ensures Execute(t, c).replies == [Reply(c, ACT_CON, false)] +
              if Sought(t, c) !in t then []
              else [RelatedReport(c, Ioa(t[HexInAddr(c.ioa)].relation)), Reply(c, ACT_TERM, false)]
  {
    var a := HexInAddr(c.ioa);
    if Sought(t, c) in t {
      UpdateBoth(t, a, Sought(t, c), c.val);
    }
  }

  /** Of the allowed addresses exactly the canonical ones are normal: no leading zeros, for instance. */
  lemma {:induction false} NormalIsCanonical(addr: string)
    requires Allowed(addr)
    ensures var n := Numbers(addr).value; Normal(addr) <==> addr == Canonical(n.0, n.1)
  {
    SpellingIsCanonical(addr);
  }

  /** A value other than `v`. */
  function Another(v: Value): (w: Value)
    ensures w != v
  {
    match v
    case IntValue(i) => IntValue(i + 1)
    case FloatValue(r) => IntValue(0)
  }

  /**
   * The related point follows every command if and only if the relation is configured in its normal spelling. The
   * constructor accepts any other as well; then the commanded point changes and the related point never does.
   */
  lemma {:induction false} RelatedPointFollowsIffNormal(t: Table, c: Command)
    requires Configured(t) && Acts(t, c) && c.ioa < 0x100_0000
    ensures var rel := t[HexInAddr(c.ioa)].relation;
      && ((forall v :: Execute(t, c.(val := v)).table[rel].val == v) <==> Normal(rel))
      && (!Normal(rel) ==> forall v :: Execute(t, c.(val := v)).table[rel] == t[rel])
  {
    var a := HexInAddr(c.ioa);
    var rel := t[a].relation;
    assert Allowed(rel);
    forall v
      ensures Execute(t, c.(val := v)).table[rel] == if Normal(rel) then t[rel].(val := v) else t[rel]
    {
      CommandUpdatesBoth(t, c.(val := v));
      SpellingIsCanonical(rel);
      NumberRoundTrip(c.ioa);
    }
    if !Normal(rel) {
      var v := Another(t[rel].val);
      assert Execute(t, c.(val := v)).table[rel].val != v;
    }
  }

  /** Every other command, valid or not, leaves the process untouched, a confirmed one without relation included. */
  lemma {:induction false} OtherCommandsChangeNothing(t: Table, c: Command)
    requires Configured(t) && !Acts(t, c)
    ensures Execute(t, c).table == t
  {
  }

  /** What the checks of the four command types ask of an activation. */
  predicate IsActivation(c: Command) {
    c.ty in {45, 46, 49, 50} && c.sq == 0 && c.cot == 6 && c.noo == 1 && (c.ty == 45 ==> c.lenApdu == 14)
  }

  /**
   * An activation is answered, anything else is not. The first answer repeats address and value; its cause is 47 for an
   * address that is not configured, else 7, and it is negative exactly for a point of another type.
   */
  lemma {:induction false} CommandIsJudged(t: Table, c: Command)
    requires Configured(t)
    ensures !IsActivation(c) ==> Execute(t, c).replies == []
    ensures IsActivation(c) ==>
      var a := HexInAddr(c.ioa);
      && Execute(t, c).replies != []
      && Execute(t, c).replies[0] == Asdu(c.ty, if a in t then 7 else 47, a in t && t[a].category != c.ty, 1,
                                          [InfoObject(c.ioa, c.val)])
  {
  }

  /**
   * How many answers follow and what the last says: none after a refusal or when the related point is not found; the
   * termination, with cause 10, otherwise, and before it the report of a related point.
   */
  lemma {:induction false} AnswersFollow(t: Table, c: Command)
    requires Configured(t) && IsActivation(c)
    ensures var a, replies := HexInAddr(c.ioa), Execute(t, c).replies;
      if a !in t || t[a].category != c.ty || (t[a].relation != "" && HexInAddr(Ioa(t[a].relation)) !in t)
      then |replies| == 1
      else
        && |replies| == (if t[a].relation == "" then 2 else 3)
        && replies[|replies| - 1] == Asdu(c.ty, 10, false, 1, [InfoObject(c.ioa, c.val)])
  {
  }

  /** The report of a related point: the monitoring type, and the cause that the handler of the command gives. */
  lemma {:induction false} RelatedIsReported(t: Table, c: Command)
    requires Configured(t) && Acts(t, c) && Sought(t, c) in t
    ensures var objects := [InfoObject(Ioa(t[HexInAddr(c.ioa)].relation), c.val)];
      Execute(t, c).replies[1..2]
      == [if c.ty == 45 then Asdu(1, 11, false, 1, objects)
          else if c.ty == 46 then Asdu(3, 11, false, 1, objects)
          else if c.ty == 49 then Asdu(11, 3, false, 1, objects)
          else Asdu(13, 3, false, 1, objects)]
  {
    CommandUpdatesBoth(t, c);
  }

  /** The replies confirm the command. */
  predicate Confirmed(t: Table, c: Command)
    requires Configured(t)
  {
    Reply(c, ACT_CON, false) in Execute(t, c).replies
  }

  /**
   * A command that is confirmed takes effect, whatever its value, if and only if the point has a relation: without
   * one it is confirmed and changes nothing.
   */
  lemma {:induction false} ConfirmedTakesEffectIffRelated(t: Table, c: Command)
    requires Configured(t)
    ensures Confirmed(t, c) ==>
      var a := HexInAddr(c.ioa);
      && a in t && Checked(c) && c.cot == 6
      && ((forall v :: Execute(t, c.(val := v)).table[a].val == v) <==> t[a].relation != "")
      && (t[a].relation == "" ==> forall v :: Execute(t, c.(val := v)).table == t)
  {
    if Confirmed(t, c) {
      var a := HexInAddr(c.ioa);
      if t[a].relation != "" {
        forall v
          ensures Execute(t, c.(val := v)).table[a].val == v
        {
          CommandUpdatesBoth(t, c.(val := v));
        }
      } else {
        var v := Another(t[a].val);
        assert Execute(t, c.(val := v)).table[a].val != v;
      }
    }
  }

  /** Every point without a relation can be commanded in vain: the command is confirmed and terminated. */
  lemma {:induction false} ConfirmedInVain(t: Table, c: Command)
    requires Configured(t) && Checked(c) && c.cot == 6 && HexInAddr(c.ioa) in t
    requires t[HexInAddr(c.ioa)].category == c.ty && t[HexInAddr(c.ioa)].relation == ""
    ensures Execute(t, c) == Executed(t, [Reply(c, ACT_CON, false), Reply(c, ACT_TERM, false)])
  {
  }

  /** The registers in the given order of keys. */
  function PointsOf(t: Table, names: seq<string>): (points: seq<Point>)
    requires forall k | 0 <= k < |names| :: names[k] in t
    ensures |points| == |names| && forall k | 0 <= k < |names| :: points[k] == t[names[k]]
  {
    if names == [] then [] else [t[names[0]]] + PointsOf(t, names[1..])
  }

  /** `names` lists keys of the table, each once. */
  ghost predicate Lists(names: seq<string>, t: Table) {
    && (forall k | 0 <= k < |names| :: names[k] in t)
    && (forall i, j | 0 <= i < j < |names| :: names[i] != names[j])
  }

  /** The listed keys spell different pairs of numbers. */
  ghost predicate DifferentNumbers(names: seq<string>) {
    forall i, j | 0 <= i < j < |names| :: Numbers(names[i]) != Numbers(names[j])
  }

  lemma {:induction false} ListedPoints(t: Table, names: seq<string>)
    requires Configured(t) && Lists(names, t)
    ensures ReadableAll(PointsOf(t, names))
    ensures forall k | 0 <= k < |names| :: PointsOf(t, names)[k].addr == names[k] && Allowed(names[k])
  {
  }

  /** Listed registers have distinct addresses on the wire if and only if no two keys spell the same two numbers. */
  lemma {:induction false} ListedAddressesAreDistinct(t: Table, names: seq<string>)
    requires Configured(t) && Lists(names, t)
    ensures ReadableAll(PointsOf(t, names))
    ensures DistinctAddresses(PointsOf(t, names)) <==> DifferentNumbers(names)
  {
    ListedPoints(t, names);
    forall i, j | 0 <= i < j < |names|
      ensures Ioa(names[i]) == Ioa(names[j]) <==> Numbers(names[i]) == Numbers(names[j])
    {
      SameAddressIffSameNumbers(names[i], names[j]);
    }
    var points := PointsOf(t, names);
    assert DistinctAddresses(points) <==> forall i, j | 0 <= i < j < |names| :: Ioa(names[i]) != Ioa(names[j]);
  }

  /** No other listed key of a reported category spells the numbers of key `k`. */
  ghost predicate OnlySpelling(t: Table, names: seq<string>, k: nat)
    requires Lists(names, t) && k < |names|
  {
    forall j | 0 <= j < |names| && j != k && t[names[j]].category in CATEGORIES ::
      Numbers(names[j]) != Numbers(names[k])
  }

  lemma {:induction false} AloneIffOnlySpelling(t: Table, names: seq<string>, k: nat)
    requires Configured(t) && Lists(names, t) && k < |names|
    ensures ReadableAll(PointsOf(t, names)) && (AloneAt(PointsOf(t, names), k) <==> OnlySpelling(t, names, k))
  {
    ListedPoints(t, names);
    var points := PointsOf(t, names);
    forall j | 0 <= j < |names|
      ensures points[j].category == t[names[j]].category
      ensures Ioa(points[j].addr) == Ioa(points[k].addr) <==> Numbers(names[j]) == Numbers(names[k])
    {
      SameAddressIffSameNumbers(names[j], names[k]);
    }
  }

  /** An interrogation reports every listed key of its categories, once if and only if no other spells the same. */
  lemma {:induction false} ListedIsReported(t: Table, names: seq<string>, k: nat)
    requires Configured(t) && Lists(names, t) && k < |names| && t[names[k]].category in CATEGORIES
    ensures ReadableAll(PointsOf(t, names))
    ensures InfoObject(Ioa(names[k]), t[names[k]].val) in Report(PointsOf(t, names))
    ensures CountIoa(Report(PointsOf(t, names)), Ioa(names[k])) == 1 <==> OnlySpelling(t, names, k)
  {
    ListedPoints(t, names);
    IsReported(PointsOf(t, names), k);
    AloneIffOnlySpelling(t, names, k);
  }

  lemma {:induction false} SameSpellings(t: Table, t': Table, names: seq<string>, k: nat)
    requires Lists(names, t) && Lists(names, t') && k < |names|
    requires forall a | a in t && a in t' :: t[a].category == t'[a].category
    ensures OnlySpelling(t, names, k) <==> OnlySpelling(t', names, k)
  {
    assert forall j | 0 <= j < |names| :: t[names[j]].category == t'[names[j]].category;
  }

  /** An interrogation of `t` reports key `k` with value `val`, and once if and only if `once`. */
  ghost predicate ReportedWith(t: Table, names: seq<string>, k: nat, val: Value, once: bool)
    requires Configured(t) && Lists(names, t) && k < |names|
  {
    ListedPoints(t, names);
    var report := Report(PointsOf(t, names));
    InfoObject(Ioa(names[k]), val) in report && (CountIoa(report, Ioa(names[k])) == 1 <==> once)
  }

  lemma {:induction false} ChangedIsReported(t: Table, t': Table, names: seq<string>, k: nat)
    requires Configured(t) && Configured(t') && Lists(names, t) && Lists(names, t') && k < |names|
    requires (forall a | a in t && a in t' :: t[a].category == t'[a].category) && t[names[k]].category in CATEGORIES
    ensures ReportedWith(t', names, k, t'[names[k]].val, OnlySpelling(t, names, k))
  {
    ListedIsReported(t', names, k);
    SameSpellings(t, t', names, k);
  }

  /**
   * A command is visible: the next interrogation reports every listed point of its categories, the commanded point
   * and the point under the sought key with the commanded value and every other point with the value it had; and it
   * reports each of them once if and only if no other such key spells the same numbers.
   */
  lemma {:induction false} CommandIsVisible(t: Table, c: Command, names: seq<string>, k: nat)
    requires Configured(t) && Acts(t, c) && Lists(names, t) && k < |names|
    requires t[names[k]].category in CATEGORIES
    ensures var t' := Execute(t, c).table;
            var commanded := names[k] == HexInAddr(c.ioa) || names[k] == Sought(t, c);
            && Configured(t') && Lists(names, t')
            && ReportedWith(t', names, k, if commanded then c.val else t[names[k]].val, OnlySpelling(t, names, k))
  {
    CommandUpdatesBoth(t, c);
    ChangedIsReported(t, Execute(t, c).table, names, k);
  }

  /** A single command of type 45 with its related point, and nothing else. */
  function Pair(a: string, rel: string, val: Value): Table {
    map[a := Point(45, a, val, rel)][rel := Point(1, rel, val, "")]
  }

  lemma {:induction false} PairIsConfigured(a: string, rel: string, val: Value)
    requires a != rel && Allowed(a) && Allowed(rel)
    ensures Configured(Pair(a, rel, val))
  {
  }

  /**
   * Any two canonical addresses can be configured as a single command and its related point; a command sent to the
   * first address then acts.
   */
  lemma {:induction false} CanonicalPairActs(a: nat, b: nat, relA: nat, relB: nat, val: Value, n: nat)
    requires a < 0x1_0000 && b < 256 && relA < 0x1_0000 && relB < 256 && Canonical(a, b) != Canonical(relA, relB)
    requires AddrInHex(Canonical(a, b)) == Ok(n)
    ensures var t, c := Pair(Canonical(a, b), Canonical(relA, relB), val), Command(45, n, 6, 0, 1, 14, val);
      Configured(t) && Acts(t, c) && Normal(t[HexInAddr(n)].relation)
  {
    CanonicalIsNormal(a, b);
    CanonicalIsNormal(relA, relB);
    NumbersOfCanonical(a, b);
    NumbersOfCanonical(relA, relB);
    PairIsConfigured(Canonical(a, b), Canonical(relA, relB), val);
  }

  /**
   * Any spelling that is not normal can be configured as the relation of a single command: the command then acts, and
   * the related point keeps its value whatever is commanded.
   */
  lemma {:induction false} OtherSpellingIsNotReached(a: nat, b: nat, rel: string, val: Value, n: nat)
    requires a < 0x1_0000 && b < 256 && Allowed(rel) && !Normal(rel)
    requires AddrInHex(Canonical(a, b)) == Ok(n)
    ensures var t, c := Pair(Canonical(a, b), rel, val), Command(45, n, 6, 0, 1, 14, val);
      Configured(t) && Acts(t, c) && forall v :: Execute(t, c.(val := v)).table[rel] == t[rel]
  {
    CanonicalIsNormal(a, b);
    NumbersOfCanonical(a, b);
    PairIsConfigured(Canonical(a, b), rel, val);
    StringRoundTrip(a, b);
    RelatedPointFollowsIffNormal(Pair(Canonical(a, b), rel, val), Command(45, n, 6, 0, 1, 14, val));
  }

  /** Such spellings are there: the canonical ones with zeros in front. */
  lemma {:induction false} PaddedIsNotNormal(a: nat, b: nat)
    requires a < 0x1_0000 && b < 256
    ensures var one, two := "0" + Canonical(a, b), "0" + ("0" + Canonical(a, b));
      Allowed(one) && !Normal(one) && Allowed(two) && !Normal(two)
  {
    SecondSpelling(a, b);
    NumbersOfCanonical(a, b);
    LeadingZeroIsIgnored("0" + Canonical(a, b));
    NormalIsCanonical("0" + ("0" + Canonical(a, b)));
    LeadingZeroIsIgnored(Canonical(a, b));
  }

  lemma {:induction false} DecOfDigit(n: nat)
    requires n < 10
    ensures Dec(n) == [DEC[n]]
  {
  }

  lemma {:induction false} SpelledOut()
    ensures "0" + ("0" + Canonical(7, 1)) == "007_1"
  {
    DecOfDigit(7);
    DecOfDigit(1);
    assert DEC[7] == '7' && DEC[1] == '1';
    assert Canonical(7, 1) == "7_1";
  }

  lemma {:induction false} PaddedSeven()
    ensures Allowed("007_1") && !Normal("007_1")
  {
    SpelledOut();
    PaddedIsNotNormal(7, 1);
  }

  lemma {:induction false} SharingOfTwo(p: Point, q: Point, ioa: nat)
    requires Readable(p.addr) && Readable(q.addr) && Ioa(p.addr) == Ioa(q.addr) == ioa
    requires p.category in CATEGORIES && q.category in CATEGORIES
    ensures ReadableAll([p, q]) && Sharing([p, q], ioa) == 2
  {
    var none: seq<Point> := [];
    assert [p, q][1..] == [q] && [q][1..] == none && Sharing(none, ioa) == 0;
    assert Sharing([q], ioa) == 1;
  }

  /** Two keys, each with its own point that an interrogation reports. */
  function TwoPoints(x: string, y: string, val: Value, other: Value): Table {
    map[x := Point(1, x, val, "")][y := Point(1, y, other, "")]
  }

  lemma {:induction false} TwoPointsAreConfigured(x: string, y: string, val: Value, other: Value)
    requires x != y && Allowed(x) && Allowed(y)
    ensures var t := TwoPoints(x, y, val, other);
      Configured(t) && Lists([x, y], t) && PointsOf(t, [x, y]) == [t[x], t[y]]
  {
    var none: seq<string> := [];
    assert [x, y][1..] == [y] && [y][1..] == none;
  }

  /** The constructor accepts two spellings of any address; an interrogation then reports the address twice. */
  lemma {:induction false} SpellingsAreReportedTwice(a: nat, b: nat, val: Value, other: Value)
    requires a < 0x1_0000 && b < 256
    ensures var x, y := Canonical(a, b), "0" + Canonical(a, b);
      var t := TwoPoints(x, y, val, other);
      && Configured(t) && Lists([x, y], t) && ReadableAll(PointsOf(t, [x, y])) && Readable(x)
      && CountIoa(Report(PointsOf(t, [x, y])), Ioa(x)) == 2
  {
    var x, y := Canonical(a, b), "0" + Canonical(a, b);
    var t := TwoPoints(x, y, val, other);
    NumbersOfCanonical(a, b);
    SecondSpelling(a, b);
    TwoPointsAreConfigured(x, y, val, other);
    SharingOfTwo(t[x], t[y], Ioa(x));
    ReportedAsOften([t[x], t[y]], Ioa(x));
  }
}
