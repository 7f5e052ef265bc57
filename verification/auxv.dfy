/**
 * The auxiliary vector the dynamic bootstrap prepares for the runtime linker:
 * an ordered list of (type, value) entries closed by AT_NULL, as laid out in
 * section 3.4.3 of the System V AMD64 psABI, with FreeBSD's type numbers.
 */
module Auxv {

  const AT_NULL := 0
  const AT_EXECFD := 2
  const AT_BASE := 7
  const AT_OSRELDATE := 18
  const AT_PAGESIZES := 20
  const AT_STACKPROT := 23

  /** One Elf_Auxinfo: a_type and the a_un word (a pointer or a value; NULL is 0). */
  datatype AuxEntry = AuxEntry(kind: int, value: int)

  /** AT_NULL occurs exactly once, as the last entry. */
  predicate NullTerminated(v: seq<AuxEntry>)
  {
    |v| > 0 && v[|v| - 1].kind == AT_NULL &&
    forall i :: 0 <= i < |v| - 1 ==> v[i].kind != AT_NULL
  }

  predicate DistinctKinds(v: seq<AuxEntry>)
  {
    forall i, j :: 0 <= i < j < |v| ==> v[i].kind != v[j].kind
  }

  /**
   * The vector as its consumer reads it: entries up to the first AT_NULL,
   * a later entry of a type overriding an earlier one.
   */
  function AuxRead(v: seq<AuxEntry>): map<int, int>
  {
    if v == [] || v[0].kind == AT_NULL then map[]
    else map[v[0].kind := v[0].value] + AuxRead(v[1..])
  }

  /** The types a reader of a vector sees: those before its terminator. */
  function KindsBeforeNull(v: seq<AuxEntry>): set<int>
    requires |v| > 0
  {
    set i | 0 <= i < |v| - 1 :: v[i].kind
  }

  /** The types before the terminator are the first one and those of the rest. */
  lemma KindsBeforeNullCons(v: seq<AuxEntry>)
    requires |v| > 1
    ensures KindsBeforeNull(v) == {v[0].kind} + KindsBeforeNull(v[1..])
  {
    var w := v[1..];
    forall k | k in KindsBeforeNull(v) ensures k in {v[0].kind} + KindsBeforeNull(w) {
      var i :| 0 <= i < |v| - 1 && v[i].kind == k;
      if i > 0 { assert w[i - 1].kind == k; }
    }
    forall k | k in KindsBeforeNull(w) ensures k in KindsBeforeNull(v) {
      var i :| 0 <= i < |w| - 1 && w[i].kind == k;
      assert v[i + 1].kind == k;
    }
  }

  /**
   * A terminated vector with distinct types hides nothing from its reader:
   * every entry before AT_NULL is read with its own value, and nothing else is.
   */
  lemma {:induction false} ReadSeesEveryEntry(v: seq<AuxEntry>)
    requires NullTerminated(v) && DistinctKinds(v)
    ensures AuxRead(v).Keys == KindsBeforeNull(v)
    ensures forall i :: 0 <= i < |v| - 1 ==> AuxRead(v)[v[i].kind] == v[i].value
  {
    if |v| > 1 {
      var w := v[1..];
      assert NullTerminated(w) && DistinctKinds(w);
      ReadSeesEveryEntry(w);
      KindsBeforeNullCons(v);
      assert AuxRead(v) == map[v[0].kind := v[0].value] + AuxRead(w);
      forall i | 0 <= i < |v| - 1 ensures AuxRead(v)[v[i].kind] == v[i].value {
        if i > 0 {
          assert v[i] == w[i - 1];
          assert v[i].kind != v[0].kind;
        }
      }
    } else {
      assert KindsBeforeNull(v) == {};
    }
  }

  /**
   * The vector jexec_dynamic builds: the mapped loader as AT_BASE, the
   * target's descriptor as AT_EXECFD, a NULL AT_PAGESIZES so that the runtime
   * linker asks the kernel for the page sizes itself, AT_OSRELDATE and
   * AT_STACKPROT still NULL, and the AT_NULL terminator.
   */
  function AuxInfo(loader: nat, fd: int): (v: seq<AuxEntry>)
    ensures NullTerminated(v) && DistinctKinds(v)
    ensures |v| == 6 && v[0] == AuxEntry(AT_BASE, loader) && v[1] == AuxEntry(AT_EXECFD, fd)
  {
    [ AuxEntry(AT_BASE, loader),
      AuxEntry(AT_EXECFD, fd),
      AuxEntry(AT_PAGESIZES, 0),
      AuxEntry(AT_OSRELDATE, 0),
      AuxEntry(AT_STACKPROT, 0),
      AuxEntry(AT_NULL, 0) ]
  }

  /**
   * What the runtime linker would read from that vector: exactly the loader
   * base, the executable's descriptor, and NULL page sizes, release date and
   * stack protection.
   */
  lemma AuxInfoAsRead(loader: nat, fd: int)
    ensures AuxRead(AuxInfo(loader, fd)) ==
      map[AT_BASE := loader, AT_EXECFD := fd, AT_PAGESIZES := 0, AT_OSRELDATE := 0, AT_STACKPROT := 0]
  {
    var v := AuxInfo(loader, fd);
    ReadSeesEveryEntry(v);
    var m := map[AT_BASE := loader, AT_EXECFD := fd, AT_PAGESIZES := 0, AT_OSRELDATE := 0, AT_STACKPROT := 0];
    assert KindsBeforeNull(v) == m.Keys by {
      assert v[0].kind == AT_BASE && v[1].kind == AT_EXECFD && v[2].kind == AT_PAGESIZES;
      assert v[3].kind == AT_OSRELDATE && v[4].kind == AT_STACKPROT;
    }
    assert AuxRead(v)[AT_BASE] == v[0].value;
    assert AuxRead(v)[AT_EXECFD] == v[1].value;
    assert AuxRead(v)[AT_PAGESIZES] == v[2].value;
    assert AuxRead(v)[AT_OSRELDATE] == v[3].value;
    assert AuxRead(v)[AT_STACKPROT] == v[4].value;
  }
}
