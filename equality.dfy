/** User-defined equality in the training program: PersonB overrides `Equals` and
    `GetHashCode`; PersonC also overloads `==` and `!=`. A C# `string` field that
    may be null is an `Option<string>`, and `string ==` is ordinal, so two names are
    equal exactly when the options are. `string.GetHashCode` is randomised per
    process, so it is a parameter `hash` of the hash members. */
module Equality {
  import opened Common

  /** `GetHashCode` on a null reference. */
  datatype NullReference = NullReference

  class PersonB {
    var name: Option<string>

    constructor (name: Option<string>)
      ensures this.name == name
    {
      this.name := name;
    }

    /** `Equals(object obj)`: obj is a PersonB (so not null) with the same name. */
    function Equals(obj: object?): (r: bool)
      reads this, obj
    {
      obj is PersonB && (obj as PersonB).name == name
    }

    /** `Name.GetHashCode()`, which throws when the name is null. */
    function GetHashCode(hash: string -> Int32): (r: Result<Int32, NullReference>)
      reads this
      ensures r.Err? <==> name.None?
      ensures r.Ok? ==> r.value == hash(name.value)
    {
      if name.None? then Err(NullReference) else Ok(hash(name.value))
    }
  }

  class PersonC {
    var name: Option<string>

    constructor (name: Option<string>)
      ensures this.name == name
    {
      this.name := name;
    }

    /** `operator ==`: the same reference (both null included), else false when one
        side is null, else the names. */
    static function Eq(a: PersonC?, b: PersonC?): (r: bool)
      reads a, b
    {
      if a == b then true
      else if a == null || b == null then false
      else a.name == b.name
    }

    /** `operator !=`. */
    static function NotEq(a: PersonC?, b: PersonC?): (r: bool)
      reads a, b
      ensures r <==> !Eq(a, b)
    {
      !Eq(a, b)
    }

    /** `Equals(object obj)`: obj is a PersonC and `this == obj`. */
    function Equals(obj: object?): (r: bool)
      reads this, obj
    {
      obj is PersonC && Eq(this, obj as PersonC)
    }

    /** `Name?.GetHashCode() ?? 0`. */
    function GetHashCode(hash: string -> Int32): (r: Int32)
      reads this
      ensures name.None? ==> r == 0
      ensures name.Some? ==> r == hash(name.value)
    {
      if name.None? then 0 else hash(name.value)
    }
  }

  // ---------------------------------------------------------------------------
  // PersonB
  // ---------------------------------------------------------------------------

  /** `Equals` holds exactly for a non-null PersonB with the same name. */
  lemma PersonBEqualsIff(b: PersonB, other: PersonB?)
    ensures b.Equals(other) <==> other != null && other.name == b.name
  {
  }

  /** Anything that is not a PersonB, null included, is never equal to one. */
  lemma PersonBEqualsOnlyPersonB(b: PersonB, obj: object?)
    requires !(obj is PersonB)
    ensures !b.Equals(obj)
  {
  }

  /** On persons, `Equals` is reflexive, symmetric and transitive. */
  lemma PersonBEquivalence(a: PersonB, b: PersonB, c: PersonB)
    ensures a.Equals(a)
    ensures a.Equals(b) <==> b.Equals(a)
    ensures a.Equals(b) && b.Equals(c) ==> a.Equals(c)
  {
  }

  /** Equal persons have equal hash codes (or both throw). */
  lemma PersonBHashConsistent(a: PersonB, b: PersonB, hash: string -> Int32)
    requires a.Equals(b)
    ensures a.GetHashCode(hash) == b.GetHashCode(hash)
  {
  }

  // ---------------------------------------------------------------------------
  // PersonC
  // ---------------------------------------------------------------------------

  /** The reference test in `==` only saves work: the operator is null-or-not
      agreement plus equal names. */
  lemma EqByName(a: PersonC?, b: PersonC?)
    ensures PersonC.Eq(a, b)
       <==> (a == null && b == null) || (a != null && b != null && a.name == b.name)
  {
  }

  /** The same reference, both null included, is always equal; exactly one null
      side never is. */
  lemma EqNulls(a: PersonC?, b: PersonC?)
    ensures a == b ==> PersonC.Eq(a, b)
    ensures (a == null) != (b == null) ==> !PersonC.Eq(a, b)
  {
  }

  /** `==` is an equivalence on PersonC references, null included. */
  lemma EqEquivalence(a: PersonC?, b: PersonC?, c: PersonC?)
    ensures PersonC.Eq(a, a)
    ensures PersonC.Eq(a, b) <==> PersonC.Eq(b, a)
    ensures PersonC.Eq(a, b) && PersonC.Eq(b, c) ==> PersonC.Eq(a, c)
  {
  }

  /** `!=` holds exactly when one side is null and the other is not, or both are
      persons with different names; it is irreflexive and symmetric. */
  lemma NotEqByName(a: PersonC?, b: PersonC?)
    ensures PersonC.NotEq(a, b)
       <==> (a == null) != (b == null) || (a != null && b != null && a.name != b.name)
    ensures !PersonC.NotEq(a, a)
    ensures PersonC.NotEq(a, b) <==> PersonC.NotEq(b, a)
  {
  }

  /** `Equals` agrees with `==` on persons and is false on anything else. */
  lemma PersonCEqualsIff(c: PersonC, obj: object?)
    ensures c.Equals(obj) <==> obj is PersonC && (obj as PersonC).name == c.name
  {
  }

  /** Persons equal under `==` have equal hash codes. */
  lemma PersonCHashConsistent(a: PersonC, b: PersonC, hash: string -> Int32)
    requires PersonC.Eq(a, b)
    ensures a.GetHashCode(hash) == b.GetHashCode(hash)
  {
  }

  /** The program's demonstrations: two PersonB and two PersonC objects both named
      "Alice" are equal, under `Equals` and under `==`, though they are different
      objects. */
  method AliceExamples() returns (bEquals: bool, cEq: bool, cEquals: bool, same: bool)
    ensures bEquals && cEq && cEquals && !same
  {
    var b1 := new PersonB(Some("Alice"));
    var b2 := new PersonB(Some("Alice"));
    bEquals := b1.Equals(b2);
    var c1 := new PersonC(Some("Alice"));
    var c2 := new PersonC(Some("Alice"));
    cEq := PersonC.Eq(c1, c2);
    cEquals := c1.Equals(c2);
    same := c1 == c2;
  }
}
