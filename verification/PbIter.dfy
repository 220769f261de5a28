// The nanopb field iterator (Pods/nanopb/pb_common.c): a cursor that wraps round the descriptor
// table and counts the required fields it has passed.
module PbIter {
  import opened Wrappers
  import opened PbFormat

  /** How many of the first k fields are required. */
  function RequiredBefore(d: Desc, k: nat): (r: nat)
    requires k <= |d.fields|
    ensures r <= k
  {
    if k == 0 then 0 else RequiredBefore(d, k - 1) + if d.fields[k - 1].htype.Required? then 1 else 0
  }

  lemma {:induction false} RequiredCounted(d: Desc, i: nat, n: nat)
    requires i < n <= |d.fields|
    ensures RequiredBefore(d, i) <= RequiredBefore(d, n)
    ensures d.fields[i].htype.Required? ==> RequiredBefore(d, i) < RequiredBefore(d, n)
  {
    if i < n - 1 {
      RequiredCounted(d, i, n - 1);
    }
  }

  class FieldIter {
    const desc: Desc
    var pos: nat
    var requiredFieldIndex: nat

    ghost predicate Valid()
      reads this
    {
      && |desc.fields| > 0 && pos < |desc.fields|
      && requiredFieldIndex == RequiredBefore(desc, pos)
    }

    /** pb_field_iter_begin, for a message type that has fields. */
    constructor (desc: Desc)
      requires |desc.fields| > 0
      ensures Valid() && pos == 0 && this.desc == desc
    {
      this.desc, pos, requiredFieldIndex := desc, 0, 0;
    }

    /** pb_field_iter_next: false when it wraps back to the first field. */
    method Next() returns (more: bool)
      requires Valid()
      modifies this
      ensures Valid() && (more <==> old(pos) + 1 < |desc.fields|)
      ensures pos == if more then old(pos) + 1 else 0
    {
      var prev := desc.fields[pos];
      pos := pos + 1;
      if pos == |desc.fields| {
        pos, requiredFieldIndex := 0, 0;
        return false;
      }
      if prev.htype.Required? {
        requiredFieldIndex := requiredFieldIndex + 1;
      }
      more := true;
    }

    /** pb_field_iter_find: searches all the way round.  It stops at the first match from where it
        stood, and fails only if no field has the tag; then it is back where it was. */
    method Find(tag: nat) returns (found: bool)
      requires Valid()
      modifies this
      ensures Valid()
      ensures found <==> exists i :: 0 <= i < |desc.fields| && desc.fields[i].tag == tag
      ensures found ==> desc.fields[pos].tag == tag
      ensures found ==> forall i | 0 <= i < |desc.fields|
              && Steps(old(pos), i, |desc.fields|) < Steps(old(pos), pos, |desc.fields|) ::
                          desc.fields[i].tag != tag
      ensures !found ==> pos == old(pos)
    {
      var start := pos;
      while true
        invariant Valid()
        invariant forall i | 0 <= i < |desc.fields|
                  && Steps(start, i, |desc.fields|) < Steps(start, pos, |desc.fields|) ::
                    desc.fields[i].tag != tag
        decreases |desc.fields| - Steps(start, pos, |desc.fields|)
      {
        if desc.fields[pos].tag == tag {
          return true;
        }
        var more := Next();
        if pos == start {
          return false;
        }
      }
    }
  }

  /** How many times to advance to get from one place to another, going round. */
  function Steps(from: nat, to: nat, n: nat): (r: nat)
    requires from < n && to < n
    ensures r < n
  {
    if to >= from then to - from else to - from + n
  }
}
