/**
 * Warnings of the program flow: each warning gets the next value of a
 * global id counter, carries a description and an error flag, and can be
 * reported to a global log. The two static fields of the warning class
 * (the log and the counter) are gathered in one `WarningLog` object that
 * every operation receives.
 */
module Warnings {

  const Half: int := 0x8000_0000
  const Modulus: int := 0x1_0000_0000

  /** A Java `int`. */
  newtype int32 = x: int | -0x8000_0000 <= x < 0x8000_0000

  /** The Java `int` that an unbounded integer becomes: two's-complement wrap-around. */
  function Wrap(x: int): (r: int32)
    ensures (r as int - x) % Modulus == 0
    ensures -Half <= x < Half ==> r as int == x
  {
    ((x + Half) % Modulus - Half) as int32
  }

  /** `idCounter++` on a Java `int`: the largest value is followed by the smallest. */
  function NextId(i: int32): (r: int32)
    ensures r == Wrap(i as int + 1)
  {
    if i == 0x7fff_ffff then -0x8000_0000 else i + 1
  }

  /** The id of the k-th warning created, counting from 0: the counter starts at 0. */
  function IdOf(k: nat): int32 {
    if k == 0 then 0 else NextId(IdOf(k - 1))
  }

  /** The k-th id is k wrapped to a Java `int`. */
  lemma {:induction false} IdOfWraps(k: nat)
    ensures IdOf(k) == Wrap(k)
  {
    if k > 0 {
      IdOfWraps(k - 1);
      WrapStep(k - 1);
    }
  }

  lemma WrapStep(x: int)
    ensures NextId(Wrap(x)) == Wrap(x + 1)
  {
    var w := Wrap(x) as int;
    assert (w - x) % Modulus == 0;
    assert ((w + 1) + Half) % Modulus == ((x + 1) + Half) % Modulus;
  }

  /** Until the counter overflows, ids count up from 0: the k-th is k. */
  lemma IdsCountUp(k: nat)
    requires k < Half
    ensures IdOf(k) as int == k
  {
    IdOfWraps(k);
  }

  /** Among fewer than 2^32 consecutive warnings no two ids are the same. */
  lemma IdsDistinct(k1: nat, k2: nat)
    requires k1 < k2 < k1 + Modulus
    ensures IdOf(k1) != IdOf(k2)
  {
    IdOfWraps(k1);
    IdOfWraps(k2);
  }

  /** After 2^31 warnings the counter overflows to the smallest Java `int`. */
  lemma IdOverflow()
    ensures IdOf(Half as nat) as int == -Half
  {
    IdOfWraps(Half as nat);
  }

  /** Ids repeat with period 2^32. */
  lemma IdsRepeat(k: nat)
    ensures IdOf(k + Modulus as nat) == IdOf(k)
  {
    IdOfWraps(k);
    IdOfWraps(k + Modulus as nat);
    ModPeriod(k + Half);
  }

  lemma ModPeriod(y: int)
    ensures (y + Modulus) % Modulus == y % Modulus
  {
    var q, r := y / Modulus, y % Modulus;
    assert y + Modulus == (q + 1) * Modulus + r;
  }

  /** The static state of the warning class: the warning log and the id counter. */
  class WarningLog {
    var log: seq<Warning>
    var idCounter: int32
    /** How many warnings have been created, counting failed constructions. */
    ghost var issued: nat

    ghost predicate Valid()
      reads this
    {
      idCounter == IdOf(issued)
    }

    /** The state when the class is loaded: an empty log and the counter at 0. */
    constructor ()
      ensures log == [] && idCounter == 0 && issued == 0 && Valid()
    {
      log := [];
      idCounter := 0;
      issued := 0;
    }

    /** A new list with the logged warnings in order; the warnings themselves are shared. */
    method GetWarningLog() returns (r: seq<Warning>)
      ensures |r| == |log| && forall i :: 0 <= i < |r| ==> r[i] == log[i]
    {
      r := log;
    }

    /** The most recently logged warning, or null when the log is empty. */
    method GetLastWarningOfWarningLog() returns (r: Warning?)
      ensures r == null <==> log == []
      ensures r != null ==> r == log[|log| - 1]
    {
      if log == [] {
        r := null;
      } else {
        r := log[|log| - 1];
      }
    }

    /** Empties the log; the id counter goes on from where it was. */
    method ClearWarningLog()
      modifies this
      ensures log == [] && idCounter == old(idCounter) && issued == old(issued)
    {
      log := [];
    }

    /**
     * A construction with a null description: the counter has already been
     * incremented when the null check throws, so that id is used up, no
     * warning is created and the log is unchanged.
     */
    method ConstructWithNullDescription()
      requires Valid()
      modifies this
      ensures idCounter == NextId(old(idCounter)) && issued == old(issued) + 1
      ensures log == old(log) && Valid()
    {
      idCounter := NextId(idCounter);
      issued := issued + 1;
    }
  }

  class Warning {
    const id: int32
    const description: string
    var isError: bool
    /** The position of this warning in creation order. */
    ghost const serial: nat

    /** The id is the one the counter gave the `serial`-th warning. */
    ghost predicate Issued() {
      id == IdOf(serial)
    }

    /** A normal warning with the given description; it takes the next id. */
    constructor (reg: WarningLog, description: string)
      requires reg.Valid()
      modifies reg
      ensures id == old(reg.idCounter) && serial == old(reg.issued) && Issued()
      ensures this.description == description && !isError
      ensures reg.idCounter == NextId(old(reg.idCounter)) && reg.issued == old(reg.issued) + 1
      ensures reg.log == old(reg.log) && reg.Valid()
    {
      id := reg.idCounter;
      serial := reg.issued;
      this.description := description;
      isError := false;
      new;
      reg.idCounter := NextId(reg.idCounter);
      reg.issued := reg.issued + 1;
    }

    /** A warning with the given description and error flag; it takes the next id. */
    constructor WithLevel(reg: WarningLog, description: string, isError: bool)
      requires reg.Valid()
      modifies reg
      ensures id == old(reg.idCounter) && serial == old(reg.issued) && Issued()
      ensures this.description == description && this.isError == isError
      ensures reg.idCounter == NextId(old(reg.idCounter)) && reg.issued == old(reg.issued) + 1
      ensures reg.log == old(reg.log) && reg.Valid()
    {
      id := reg.idCounter;
      serial := reg.issued;
      this.description := description;
      this.isError := isError;
      new;
      reg.idCounter := NextId(reg.idCounter);
      reg.issued := reg.issued + 1;
    }

    /**
     * A copy of the description and the error flag under the next id; it is
     * not equal to the original unless 2^32 or more warnings were created in
     * between.
     */
    constructor Copy(reg: WarningLog, toCopy: Warning)
      requires reg.Valid()
      modifies reg
      ensures id == old(reg.idCounter) && serial == old(reg.issued) && Issued()
      ensures description == toCopy.description && isError == old(toCopy.isError)
      ensures reg.idCounter == NextId(old(reg.idCounter)) && reg.issued == old(reg.issued) + 1
      ensures reg.log == old(reg.log) && reg.Valid()
      ensures toCopy.Issued() && toCopy.serial < serial < toCopy.serial + Modulus ==>
        id != toCopy.id && !Equals(toCopy)
    {
      id := reg.idCounter;
      serial := reg.issued;
      description := toCopy.description;
      isError := toCopy.isError;
      new;
      reg.idCounter := NextId(reg.idCounter);
      reg.issued := reg.issued + 1;
      if toCopy.Issued() && toCopy.serial < serial < toCopy.serial + Modulus {
        IdsDistinct(toCopy.serial, serial);
      }
    }

    /** Marks this warning as an error and returns it; nothing else changes. */
    method SetToError() returns (r: Warning)
      modifies this
      ensures r == this && isError
    {
      isError := true;
      r := this;
    }

    function GetId(): int32 {
      id
    }

    function GetDescription(): string {
      description
    }

    function IsError(): bool
      reads this
    {
      isError
    }

    /** Appends this warning to the log; the log holds the warning itself, not a copy. */
    method ReportWarning(reg: WarningLog)
      modifies reg
      ensures reg.log == old(reg.log) + [this]
      ensures reg.idCounter == old(reg.idCounter) && reg.issued == old(reg.issued)
    {
      reg.log := reg.log + [this];
    }

    function HashCode(): int32 {
      id
    }

    /** Another object equals this warning when it is a warning with the same hash code. */
    predicate Equals(other: object?) {
      other is Warning && HashCode() == (other as Warning).HashCode()
    }
  }

  // ----- Equality -----

  /**
   * Two warnings are equal exactly when their ids are equal; null and
   * objects that are not warnings equal no warning.
   */
  lemma EqualsIsSameId(a: Warning, b: Warning?, o: object?)
    ensures a.Equals(b) <==> b != null && a.id == b.id
    ensures !(o is Warning) ==> !a.Equals(o)
  {
  }

  /** Equality is reflexive, symmetric and transitive, and equal warnings hash alike. */
  lemma EqualsIsEquivalence(a: Warning, b: Warning, c: Warning)
    ensures a.Equals(a)
    ensures a.Equals(b) ==> b.Equals(a) && a.HashCode() == b.HashCode()
    ensures a.Equals(b) && b.Equals(c) ==> a.Equals(c)
  {
  }

  /** Warnings created fewer than 2^32 creations apart are never equal. */
  lemma DistinctWarningsUnequal(a: Warning, b: Warning)
    requires a.Issued() && b.Issued()
    requires a.serial < b.serial < a.serial + Modulus
    ensures !a.Equals(b) && !b.Equals(a)
  {
    IdsDistinct(a.serial, b.serial);
  }

  /** A warning created 2^32 creations after another is equal to it. */
  lemma WrappedWarningsEqual(a: Warning, b: Warning)
    requires a.Issued() && b.Issued() && b.serial == a.serial + Modulus
    ensures a.Equals(b)
  {
    IdsRepeat(a.serial);
  }
}
