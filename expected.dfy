/**
 * The kernel's own result types of src/stl/expected.hpp: Unexpected<E>, which wraps an
 * error; Expected<T, E>, a tagged union that holds either a value or an error; and
 * Expected<void, E>, whose success carries nothing.
 *
 * The C++ classes keep a `has_value_` flag beside an untagged union. Here the union is
 * a datatype holding the active member, and `Valid()` says that the flag names the
 * member that is active. Copy and move operations are one operation here: what a move
 * leaves behind in its source is not modelled. Comparisons use Dafny's equality on T
 * and E in place of their `operator==`.
 */
module Stl {
  import opened Wrappers

  /** The active member of Expected's union. */
  datatype Storage<T, E> = Value(value: T) | Error(error: E)

  // ---------------------------------------------------------------------------
  // Unexpected<E>

  /** An error value, marked so that Expected can tell it from a T. */
  class Unexpected<E> {
    var error: E

    /** Unexpected(e): holds e. */
    constructor (e: E)
      ensures error == e
    {
      error := e;
    }

    /** The defaulted copy assignment: takes the other's error. */
    method Assign(other: Unexpected<E>)
      modifies this
      ensures error == old(other.error)
    {
      error := other.error;
    }

    /** swap: exchanges the two errors (a no-op when other is this object). */
    method Swap(other: Unexpected<E>)
      modifies this, other
      ensures error == old(other.error) && other.error == old(error)
    {
      var tmp := error;
      error := other.error;
      other.error := tmp;
    }
  }

  /** operator== on Unexpected: the errors are equal. */
  function UnexpectedEqual<E(==)>(lhs: Unexpected<E>, rhs: Unexpected<E>): (b: bool)
    reads lhs, rhs
    ensures b <==> lhs.error == rhs.error
    ensures lhs == rhs ==> b
  {
    lhs.error == rhs.error
  }

  // ---------------------------------------------------------------------------
  // Expected<T, E>

  /** Expected<T, E>: either a T (has_value) or an E. */
  class Expected<T, E> {
    var hasValue: bool
    var storage: Storage<T, E>

    /** The flag names the active member of the union. */
    ghost predicate Valid()
      reads this
    {
      hasValue <==> storage.Value?
    }

    /** Expected(const T&) and Expected(T&&): the value state, holding v. */
    constructor FromValue(v: T)
      ensures Valid() && hasValue && storage == Value(v)
    {
      hasValue := true;
      storage := Value(v);
    }

    /** Expected(const Unexpected<E>&) and its move form: the error state, holding u's error. */
    constructor FromUnexpected(u: Unexpected<E>)
      ensures Valid() && !hasValue && storage == Error(u.error)
    {
      hasValue := false;
      storage := Error(u.error);
    }

    /** The copy and move constructors: the same state as other. */
    constructor Copy(other: Expected<T, E>)
      requires other.Valid()
      ensures Valid() && hasValue == other.hasValue && storage == other.storage
    {
      hasValue := other.hasValue;
      if other.hasValue {
        storage := Value(other.storage.value);
      } else {
        storage := Error(other.storage.error);
      }
    }

    /**
     * Copy and move assignment: self-assignment is a no-op; a value over a value or an
     * error over an error is assigned member-wise; otherwise the active member is
     * destroyed and the other's is constructed. Either way this ends in other's state.
     */
    method Assign(other: Expected<T, E>)
      requires Valid() && other.Valid()
      modifies this
      ensures Valid() && hasValue == old(other.hasValue) && storage == old(other.storage)
    {
      if this == other {
        return;
      }
      if hasValue && other.hasValue {
        storage := Value(other.storage.value);
      } else if !hasValue && !other.hasValue {
        storage := Error(other.storage.error);
      } else {
        hasValue := other.hasValue;
        if hasValue {
          storage := Value(other.storage.value);
        } else {
          storage := Error(other.storage.error);
        }
      }
    }

    /** operator=(const T&) and operator=(T&&): always ends in the value state, holding v. */
    method AssignValue(v: T)
      requires Valid()
      modifies this
      ensures Valid() && hasValue && storage == Value(v)
    {
      if hasValue {
        storage := Value(v);
      } else {
        hasValue := true;
        storage := Value(v);
      }
    }

    /** operator=(const Unexpected<E>&) and its move form: always ends in the error state. */
    method AssignUnexpected(u: Unexpected<E>)
      requires Valid()
      modifies this
      ensures Valid() && !hasValue && storage == Error(old(u.error))
    {
      if !hasValue {
        storage := Error(u.error);
      } else {
        var e := u.error;
        hasValue := false;
        storage := Error(e);
      }
    }

    /** has_value() and operator bool. */
    predicate HasValue(): (b: bool)
      reads this
      ensures Valid() ==> (b <==> storage.Value?)
    {
      hasValue
    }

    /** value() and operator*: defined only in the value state. */
    function Get(): (v: T)
      reads this
      requires Valid() && hasValue
      ensures storage == Value(v)
    {
      storage.value
    }

    /** error(): defined only in the error state. */
    function GetError(): (e: E)
      reads this
      requires Valid() && !hasValue
      ensures storage == Error(e)
    {
      storage.error
    }

    /**
     * value_or(d): the stored value, or d in the error state. The result equals this
     * object (in the sense of operator==(Expected, U)) exactly when a value is held.
     */
    function ValueOr(d: T): (v: T)
      reads this
      requires Valid()
      ensures hasValue <==> storage == Value(v)
      ensures !hasValue ==> v == d
    {
      if hasValue then storage.value else d
    }

    /**
     * error_or(d): the stored error, or d in the value state. The result equals this
     * object (in the sense of operator==(Expected, Unexpected)) exactly when an error is
     * held.
     */
    function ErrorOr(d: E): (e: E)
      reads this
      requires Valid()
      ensures !hasValue <==> storage == Error(e)
      ensures hasValue ==> e == d
    {
      if !hasValue then storage.error else d
    }

    /** emplace(args...): destroys whatever is held and constructs v; returns the new value. */
    method Emplace(v: T) returns (r: T)
      requires Valid()
      modifies this
      ensures Valid() && hasValue && storage == Value(v) && r == v
    {
      hasValue := true;
      storage := Value(v);
      r := storage.value;
    }

    /**
     * swap: two values or two errors are swapped member-wise; otherwise the value moves
     * to a temporary, the value-holder takes the error and the error-holder takes the
     * temporary. In every case the two objects exchange flag and contents.
     */
    method Swap(other: Expected<T, E>)
      requires Valid() && other.Valid()
      modifies this, other
      ensures Valid() && other.Valid()
      ensures hasValue == old(other.hasValue) && storage == old(other.storage)
      ensures other.hasValue == old(hasValue) && other.storage == old(storage)
    {
      if hasValue && other.hasValue {
        var tmp := storage.value;
        storage := Value(other.storage.value);
        other.storage := Value(tmp);
      } else if !hasValue && !other.hasValue {
        var tmp := storage.error;
        storage := Error(other.storage.error);
        other.storage := Error(tmp);
      } else {
        var withValue := if hasValue then this else other;
        var withError := if hasValue then other else this;
        var tmpValue := withValue.storage.value;
        withValue.hasValue := false;
        withValue.storage := Error(withError.storage.error);
        withError.hasValue := true;
        withError.storage := Value(tmpValue);
      }
    }
  }

  /**
   * operator== on two Expected objects: false when the flags differ, the values
   * compared when both hold one, the errors compared otherwise. On valid objects this
   * is exactly equality of the held member.
   */
  function Equal<T(==), E(==)>(lhs: Expected<T, E>, rhs: Expected<T, E>): (b: bool)
    reads lhs, rhs
    requires lhs.Valid() && rhs.Valid()
    ensures b <==> lhs.storage == rhs.storage
  {
    if lhs.hasValue != rhs.hasValue then false
    else if lhs.hasValue then lhs.storage.value == rhs.storage.value
    else lhs.storage.error == rhs.storage.error
  }

  /** operator!=: the negation of operator==. */
  function NotEqual<T(==), E(==)>(lhs: Expected<T, E>, rhs: Expected<T, E>): (b: bool)
    reads lhs, rhs
    requires lhs.Valid() && rhs.Valid()
    ensures b <==> lhs.storage != rhs.storage
  {
    !Equal(lhs, rhs)
  }

  /** operator==(Expected, U): a value is held and it equals v. */
  function EqualsValue<T(==), E>(lhs: Expected<T, E>, v: T): (b: bool)
    reads lhs
    requires lhs.Valid()
    ensures b <==> lhs.storage == Value(v)
  {
    lhs.hasValue && lhs.storage.value == v
  }

  /** operator==(Expected, Unexpected): an error is held and it equals u's. */
  function EqualsUnexpected<T, E(==)>(lhs: Expected<T, E>, u: Unexpected<E>): (b: bool)
    reads lhs, u
    requires lhs.Valid()
    ensures b <==> lhs.storage == Error(u.error)
  {
    !lhs.hasValue && lhs.storage.error == u.error
  }

  // ---------------------------------------------------------------------------
  // Properties of Expected<T, E>

  /** operator== compares the flags first, then only the member both objects hold. */
  lemma EqualCases<T, E>(lhs: Expected<T, E>, rhs: Expected<T, E>)
    requires lhs.Valid() && rhs.Valid()
    ensures lhs.hasValue != rhs.hasValue ==> !Equal(lhs, rhs)
    ensures lhs.hasValue && rhs.hasValue ==> (Equal(lhs, rhs) <==> lhs.Get() == rhs.Get())
    ensures !lhs.hasValue && !rhs.hasValue ==> (Equal(lhs, rhs) <==> lhs.GetError() == rhs.GetError())
  {
  }

  /** operator== is an equivalence on valid objects. */
  lemma EqualEquivalence<T, E>(a: Expected<T, E>, b: Expected<T, E>, c: Expected<T, E>)
    requires a.Valid() && b.Valid() && c.Valid()
    ensures Equal(a, a)
    ensures Equal(a, b) ==> Equal(b, a)
    ensures Equal(a, b) && Equal(b, c) ==> Equal(a, c)
  {
  }

  /**
   * The two mixed comparisons partition the states: against any value and any error,
   * at most one holds, and comparing with the held member always succeeds.
   */
  lemma MixedEquals<T, E>(x: Expected<T, E>, v: T, u: Unexpected<E>)
    requires x.Valid()
    ensures !(EqualsValue(x, v) && EqualsUnexpected(x, u))
    ensures x.hasValue ==> EqualsValue(x, x.ValueOr(v))
    ensures !x.hasValue ==> (EqualsUnexpected(x, u) <==> x.ErrorOr(u.error) == u.error)
  {
  }

  /** Two objects that compare equal give the same value_or and error_or answers. */
  lemma EqualSameDefaults<T, E>(a: Expected<T, E>, b: Expected<T, E>, d: T, e: E)
    requires a.Valid() && b.Valid() && Equal(a, b)
    ensures a.HasValue() == b.HasValue()
    ensures a.ValueOr(d) == b.ValueOr(d) && a.ErrorOr(e) == b.ErrorOr(e)
  {
  }

  /** Swapping twice, in either order, gives both objects back their states. */
  method SwapTwice<T, E>(a: Expected<T, E>, b: Expected<T, E>)
    requires a.Valid() && b.Valid()
    modifies a, b
    ensures a.Valid() && b.Valid()
    ensures a.storage == old(a.storage) && b.storage == old(b.storage)
  {
    a.Swap(b);
    b.Swap(a);
  }

  // ---------------------------------------------------------------------------
  // Expected<void, E>

  /** Expected<void, E>: a success carrying nothing, or an error E. */
  class ExpectedVoid<E> {
    var hasValue: bool
    var error: Option<E>

    /** The flag is set exactly when no error is held. */
    ghost predicate Valid()
      reads this
    {
      hasValue <==> error.None?
    }

    /** The defaulted constructor: `has_value_` starts true, so this is a success. */
    constructor ()
      ensures Valid() && hasValue
    {
      hasValue := true;
      error := None;
    }

    /** Expected(const Unexpected<E>&) and its move form: the error state. */
    constructor FromUnexpected(u: Unexpected<E>)
      ensures Valid() && !hasValue && error == Some(u.error)
    {
      hasValue := false;
      error := Some(u.error);
    }

    /** The copy and move constructors: the same state as other. */
    constructor Copy(other: ExpectedVoid<E>)
      requires other.Valid()
      ensures Valid() && hasValue == other.hasValue && error == other.error
    {
      hasValue := other.hasValue;
      if !other.hasValue {
        error := Some(other.error.value);
      } else {
        error := None;
      }
    }

    /**
     * Copy and move assignment: two errors are assigned; a success over which an error
     * is assigned constructs it; an error over which a success is assigned is destroyed;
     * two successes leave everything as it is.
     */
    method Assign(other: ExpectedVoid<E>)
      requires Valid() && other.Valid()
      modifies this
      ensures Valid() && hasValue == old(other.hasValue) && error == old(other.error)
    {
      if this == other {
        return;
      }
      if !hasValue && !other.hasValue {
        error := Some(other.error.value);
      } else if hasValue && !other.hasValue {
        hasValue := false;
        error := Some(other.error.value);
      } else if !hasValue && other.hasValue {
        error := None;
        hasValue := true;
      }
    }

    /** operator=(const Unexpected<E>&) and its move form: always ends in the error state. */
    method AssignUnexpected(u: Unexpected<E>)
      requires Valid()
      modifies this
      ensures Valid() && !hasValue && error == Some(old(u.error))
    {
      if !hasValue {
        error := Some(u.error);
      } else {
        var e := u.error;
        hasValue := false;
        error := Some(e);
      }
    }

    /** has_value() and operator bool. */
    predicate HasValue(): (b: bool)
      reads this
      ensures Valid() ==> (b <==> error.None?)
    {
      hasValue
    }

    /** error(): defined only in the error state. */
    function GetError(): (e: E)
      reads this
      requires Valid() && !hasValue
      ensures error == Some(e)
    {
      error.value
    }

    /** error_or(d): the held error, or d on success. */
    function ErrorOr(d: E): (e: E)
      reads this
      requires Valid()
      ensures !hasValue <==> error == Some(e)
      ensures hasValue ==> e == d
    {
      if !hasValue then error.value else d
    }

    /** emplace(): an error is destroyed and the object becomes a success; a success stays. */
    method Emplace()
      requires Valid()
      modifies this
      ensures Valid() && hasValue
    {
      if !hasValue {
        error := None;
        hasValue := true;
      }
    }

    /**
     * swap: two errors are swapped; when only one side holds an error, it is moved to the
     * other side and the side it left becomes a success; two successes stay as they are.
     */
    method Swap(other: ExpectedVoid<E>)
      requires Valid() && other.Valid()
      modifies this, other
      ensures Valid() && other.Valid()
      ensures hasValue == old(other.hasValue) && error == old(other.error)
      ensures other.hasValue == old(hasValue) && other.error == old(error)
    {
      if !hasValue && !other.hasValue {
        var tmp := error;
        error := other.error;
        other.error := tmp;
      } else if hasValue && !other.hasValue {
        hasValue := false;
        error := Some(other.error.value);
        other.error := None;
        other.hasValue := true;
      } else if !hasValue && other.hasValue {
        other.hasValue := false;
        other.error := Some(error.value);
        error := None;
        hasValue := true;
      }
    }
  }

  /**
   * operator== on Expected<void, E>: false when the flags differ, true for two
   * successes, the errors compared otherwise; on valid objects, equality of the states.
   */
  function VoidEqual<E(==)>(lhs: ExpectedVoid<E>, rhs: ExpectedVoid<E>): (b: bool)
    reads lhs, rhs
    requires lhs.Valid() && rhs.Valid()
    ensures b <==> lhs.error == rhs.error
  {
    if lhs.hasValue != rhs.hasValue then false
    else if lhs.hasValue then true
    else lhs.error.value == rhs.error.value
  }

  /** operator!= on Expected<void, E>. */
  function VoidNotEqual<E(==)>(lhs: ExpectedVoid<E>, rhs: ExpectedVoid<E>): (b: bool)
    reads lhs, rhs
    requires lhs.Valid() && rhs.Valid()
    ensures b <==> lhs.error != rhs.error
  {
    !VoidEqual(lhs, rhs)
  }

  /** operator==(Expected<void, E>, Unexpected): an error is held and it equals u's. */
  function VoidEqualsUnexpected<E(==)>(lhs: ExpectedVoid<E>, u: Unexpected<E>): (b: bool)
    reads lhs, u
    requires lhs.Valid()
    ensures b <==> lhs.error == Some(u.error)
  {
    !lhs.hasValue && lhs.error.value == u.error
  }

  // ---------------------------------------------------------------------------
  // Properties of Expected<void, E>

  /** Any two successes compare equal; a success never equals an error. */
  lemma VoidSuccessesEqual<E>(a: ExpectedVoid<E>, b: ExpectedVoid<E>)
    requires a.Valid() && b.Valid()
    ensures a.hasValue && b.hasValue ==> VoidEqual(a, b)
    ensures a.hasValue != b.hasValue ==> !VoidEqual(a, b)
  {
  }

  /**
   * Expected<void, E> behaves as Expected<T, E> with a single value: a success is the
   * one value and an error is held as is, and the comparisons agree.
   */
  lemma VoidAsUnit<E>(a: ExpectedVoid<E>, b: ExpectedVoid<E>, x: Expected<(), E>, y: Expected<(), E>)
    requires a.Valid() && b.Valid() && x.Valid() && y.Valid()
    requires a.hasValue == x.hasValue && (!a.hasValue ==> a.error.value == x.storage.error)
    requires b.hasValue == y.hasValue && (!b.hasValue ==> b.error.value == y.storage.error)
    ensures VoidEqual(a, b) <==> Equal(x, y)
  {
    if a.hasValue && b.hasValue {
      match (x.storage, y.storage)
      case (Value(()), Value(())) =>
    } else if !a.hasValue && !b.hasValue {
      assert a.error == Some(x.storage.error) && b.error == Some(y.storage.error);
    }
  }
}
