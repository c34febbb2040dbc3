/** The circular field iterator of pb_common.c, with its count of required fields. */
module FieldIter {
  import opened Schema
  import opened DecodeSpec

  /** A descriptor array ends with a terminator of tag zero, which no field has. */
  predicate Tagged(fields: seq<Field>) { forall i :: 0 <= i < |fields| ==> fields[i].tag != 0 }

  class Iterator {
    const fields: seq<Field>
    var pos: nat
    var required: nat

    /** Only an empty descriptor leaves the iterator at its terminator, and `required` counts the
        required fields before the position. */
    ghost predicate Valid()
      reads this
    {
      && Tagged(fields) && pos <= |fields| && (pos < |fields| || fields == [])
      && required == RequiredBefore(fields, pos)
    }

    /** The tag at the position. */
    function Tag(): (t: nat)
      reads this
    {
      if pos < |fields| then fields[pos].tag else 0
    }

    /** pb_field_iter_begin. */
    constructor (fields: seq<Field>)
      requires Tagged(fields)
      ensures Valid() && this.fields == fields && pos == 0
    {
      this.fields, pos, required := fields, 0, 0;
    }

    /** pb_field_iter_next: one step on, or back to the first field with false. */
    method Next() returns (more: bool)
      requires Valid()
      modifies this
      ensures Valid() && more == (old(pos) + 1 < |fields|) && pos == if more then old(pos) + 1 else 0
    {
      if Tag() == 0 {
        return false;
      }
      var prev := fields[pos];
      pos := pos + 1;
      if Tag() == 0 {
        pos, required := 0, 0;
        return false;
      }
      if prev.rule.Required? {
        required := required + 1;
      }
      more := true;
    }

    /** Positions on the way from `start` round to `pos`. */
    ghost predicate Passed(start: nat, wrapped: bool, i: nat)
      reads this
    {
      if wrapped then i < pos || start <= i else start <= i < pos
    }

    /** pb_field_iter_find: true exactly when some field has the tag, and then at that field. The
        terminator of an empty descriptor answers to tag zero. */
    method Find(tag: nat) returns (found: bool)
      requires Valid()
      modifies this
      ensures Valid()
      ensures found == if fields == [] then tag == 0 else exists i :: 0 <= i < |fields| && fields[i].tag == tag
      ensures found ==> Tag() == tag
      ensures !found ==> pos == old(pos)
    {
      var start := pos;
      ghost var wrapped := false;
      while true
        invariant Valid() && start == old(pos) && start <= |fields|
        invariant if wrapped then pos < start else start <= pos
        invariant forall i :: 0 <= i < |fields| && Passed(start, wrapped, i) ==> fields[i].tag != tag
        decreases if wrapped then 0 else 1, |fields| - pos
      {
        if Tag() == tag {
          return true;
        }
        var more := Next();
        if !more {
          wrapped := true;
        }
        if pos == start {
          return false;
        }
      }
    }

    /** The number of required fields, found by running on to the end of the array. */
    method CountRequired() returns (n: nat)
      requires Valid()
      modifies this
      ensures Valid() && n == RequiredBefore(fields, |fields|)
    {
      var lastRequired;
      while true
        invariant Valid()
        decreases |fields| - pos
      {
        n := required;
        lastRequired := pos == |fields| || fields[pos].rule.Required?;
        ghost var at := pos;
        var more := Next();
        if !more {
          assert fields != [] ==> n == RequiredBefore(fields, |fields| - 1) && at == |fields| - 1;
          break;
        }
      }
      if lastRequired && Tag() != 0 {
        n := n + 1;
      }
    }
  }
}
