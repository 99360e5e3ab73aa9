/**
 * The register objects of `DeviceDataController` and the command handlers that assign to them, proved against
 * `Iec104Process.Execute`.
 */
module Iec104Controller {
  import opened Iec104Address
  import opened Iec104Process

  class IEC104Register {
    const categoryId: int
    const addr: string
    const relation: string
    var val: Value

    constructor (categoryId: int, addr: string, val: Value, relation: string)
      ensures AsPoint() == Point(categoryId, addr, val, relation)
    {
      this.categoryId, this.addr, this.val, this.relation := categoryId, addr, val, relation;
    }

    function AsPoint(): Point
      reads this
    {
      Point(categoryId, addr, val, relation)
    }
  }

  class DeviceDataController {
    const registers: map<string, IEC104Register>
    ghost var table: Table

    ghost predicate Valid()
      reads this, registers.Values
    {
      && table.Keys == registers.Keys
      && (forall a | a in registers :: registers[a].AsPoint() == table[a])
      && (forall a, b | a in registers && b in registers && a != b :: registers[a] != registers[b])
    }

    constructor (registers: map<string, IEC104Register>)
      requires forall a, b | a in registers && b in registers && a != b :: registers[a] != registers[b]
      ensures Valid() && this.registers == registers
    {
      this.registers := registers;
      table := map a | a in registers :: registers[a].AsPoint();
    }

    method GetObjectFromReg(ioa: nat) returns (obj: IEC104Register?)
      requires Valid()
      ensures var a := HexInAddr(ioa); if a in registers then obj == registers[a] else obj == null
      ensures forall a | a in registers && Readable(a) && Ioa(a) == ioa :: obj == registers[a] <==> Normal(a)
    {
      var addressStructured := HexInAddr(ioa);
      if addressStructured in registers {
        return registers[addressStructured];
      }
      return null;
    }

    method SetVal(ghost a: string, obj: IEC104Register, val: Value)
      requires Valid() && a in registers && registers[a] == obj
      modifies this`table, obj`val
      ensures Valid() && table == old(table)[a := old(table)[a].(val := val)]
    {
      obj.val := val;
      table := table[a := table[a].(val := val)];
    }

    method SetRelated(c: Command, ghost a: string, obj: IEC104Register) returns (replies: seq<Asdu>)
      requires Valid() && a in registers && registers[a] == obj && Readable(obj.relation)
      modifies this`table, registers.Values
      ensures Valid() && Executed(table, replies) == ExecuteRelated(old(table), a, c)
    {
      var relHex := Ioa(obj.relation);
      var objRel := GetObjectFromReg(relHex);
      SetVal(a, obj, c.val);
      if objRel == null {
        return [];
      }
      SetVal(HexInAddr(relHex), objRel, c.val);
      replies := [RelatedReport(c, relHex), Reply(c, ACT_TERM, false)];
    }

    /** `handle_single_command45` and its three siblings. */
    method HandleCommand(c: Command) returns (replies: seq<Asdu>)
      requires Valid() && Configured(table)
      modifies this`table, registers.Values
      ensures Valid() && Executed(table, replies) == Execute(old(table), c)
    {
      if !Checked(c) || c.cot != 6 {
        return [];
      }
      var obj := GetObjectFromReg(c.ioa);
      if obj == null {
        return [Reply(c, UNKNOWN_IOA, false)];
      }
      if obj.categoryId != c.ty {
        return [Reply(c, ACT_CON, true)];
      }
      if obj.relation == "" {
        return [Reply(c, ACT_CON, false), Reply(c, ACT_TERM, false)];
      }
      assert obj.relation in table;
      replies := SetRelated(c, HexInAddr(c.ioa), obj);
      replies := [Reply(c, ACT_CON, false)] + replies;
    }
  }
}
