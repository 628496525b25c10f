/**
 * The smart pointers of `src/boo.rs`: `Boo` (borrowed or owned), `Mob`
 * (owned, borrowed or mutably borrowed) and `Moo` (owned or mutably
 * borrowed), the conversions between them, dereferencing, and the helpers
 * that take, write or clone the pointed-to value.
 *
 * A borrowed `&T` or `&mut T` is modelled as a heap `Cell` holding the
 * referent, so that writing through a mutable borrow is visible to every
 * holder of the same reference. Cloning and copying a `T` are the identity
 * on Dafny values. Lifetimes are not modelled.
 */
module Boos {
  import opened Wrappers

  /** The referent of a borrow. */
  class Cell<T> {
    var value: T

    constructor (value: T)
      ensures this.value == value
    {
      this.value := value;
    }
  }

  datatype Boo<T> = BooBorrowed(r: Cell<T>) | BooOwned(t: T)

  datatype Mob<T> = MobOwned(t: T) | MobBorrowed(r: Cell<T>) | MobBorrowedMut(m: Cell<T>)

  datatype Moo<T> = MooOwned(t: T) | MooBorrowedMut(m: Cell<T>)

  /** The referents a value of each pointer type depends on. */
  function BooCells<T>(b: Boo<T>): set<Cell<T>> {
    if b.BooBorrowed? then {b.r} else {}
  }

  function MobCells<T>(m: Mob<T>): set<Cell<T>> {
    match m
    case MobOwned(_) => {}
    case MobBorrowed(r) => {r}
    case MobBorrowedMut(c) => {c}
  }

  function MooCells<T>(m: Moo<T>): set<Cell<T>> {
    if m.MooBorrowedMut? then {m.m} else {}
  }

  // Dereferencing: `Deref::deref`, `AsRef::as_ref` and `Borrow::borrow` share one body per type.

  function BooDeref<T>(b: Boo<T>): (r: T)
    reads BooCells(b)
    ensures b.BooOwned? ==> r == b.t
    ensures b.BooBorrowed? ==> r == b.r.value
  {
    match b
    case BooBorrowed(c) => c.value
    case BooOwned(t) => t
  }

  function MobDeref<T>(m: Mob<T>): (r: T)
    reads MobCells(m)
    ensures m.MobOwned? ==> r == m.t
    ensures m.MobBorrowed? ==> r == m.r.value
    ensures m.MobBorrowedMut? ==> r == m.m.value
  {
    match m
    case MobOwned(t) => t
    case MobBorrowed(c) => c.value
    case MobBorrowedMut(c) => c.value
  }

  function MooDeref<T>(m: Moo<T>): (r: T)
    reads MooCells(m)
    ensures m.MooOwned? ==> r == m.t
    ensures m.MooBorrowedMut? ==> r == m.m.value
  {
    match m
    case MooOwned(t) => t
    case MooBorrowedMut(c) => c.value
  }

  // Conversions.

  /** `From<Boo> for Mob`. */
  function MobFromBoo<T>(b: Boo<T>): (r: Mob<T>)
    ensures !r.MobBorrowedMut?
    ensures MobCells(r) == BooCells(b)
  {
    match b
    case BooOwned(t) => MobOwned(t)
    case BooBorrowed(c) => MobBorrowed(c)
  }

  /** `From<Moo> for Mob`. */
  function MobFromMoo<T>(m: Moo<T>): (r: Mob<T>)
    ensures !r.MobBorrowed?
    ensures MobCells(r) == MooCells(m)
  {
    match m
    case MooOwned(t) => MobOwned(t)
    case MooBorrowedMut(c) => MobBorrowedMut(c)
  }

  /** `TryFrom<Mob> for Boo`: fails exactly on a mutable borrow, handing the reference back. */
  function BooTryFromMob<T>(m: Mob<T>): (r: Result<Boo<T>, Cell<T>>)
    ensures r.Err? <==> m.MobBorrowedMut?
    ensures r.Err? ==> r.error == m.m
    ensures r.Ok? ==> MobFromBoo(r.value) == m
  {
    match m
    case MobBorrowedMut(c) => Err(c)
    case MobBorrowed(c) => Ok(BooBorrowed(c))
    case MobOwned(t) => Ok(BooOwned(t))
  }

  /** `TryFrom<Mob> for Moo`: fails exactly on a shared borrow, handing the reference back. */
  function MooTryFromMob<T>(m: Mob<T>): (r: Result<Moo<T>, Cell<T>>)
    ensures r.Err? <==> m.MobBorrowed?
    ensures r.Err? ==> r.error == m.r
    ensures r.Ok? ==> MobFromMoo(r.value) == m
  {
    match m
    case MobBorrowedMut(c) => Ok(MooBorrowedMut(c))
    case MobBorrowed(c) => Err(c)
    case MobOwned(t) => Ok(MooOwned(t))
  }

  /** `TryFrom<Moo> for Boo`, through `Mob`: only an owned value converts. */
  function BooTryFromMoo<T>(m: Moo<T>): (r: Result<Boo<T>, Cell<T>>)
    ensures r.Ok? <==> m.MooOwned?
    ensures r.Ok? ==> r.value == BooOwned(m.t)
    ensures r.Err? ==> r.error == m.m
  {
    BooTryFromMob(MobFromMoo(m))
  }

  /** `TryFrom<Boo> for Moo`, through `Mob`: only an owned value converts. */
  function MooTryFromBoo<T>(b: Boo<T>): (r: Result<Moo<T>, Cell<T>>)
    ensures r.Ok? <==> b.BooOwned?
    ensures r.Ok? ==> r.value == MooOwned(b.t)
    ensures r.Err? ==> r.error == b.r
  {
    MooTryFromMob(MobFromBoo(b))
  }

  /** Widening to `Mob` and narrowing back gives the original pointer. */
  lemma MobRoundTrips<T>(b: Boo<T>, m: Moo<T>)
    ensures BooTryFromMob(MobFromBoo(b)) == Ok(b)
    ensures MooTryFromMob(MobFromMoo(m)) == Ok(m)
  {}

  /** Every conversion keeps the pointed-to value. */
  lemma ConversionsKeepValue<T>(b: Boo<T>, mob: Mob<T>, moo: Moo<T>)
    ensures MobDeref(MobFromBoo(b)) == BooDeref(b)
    ensures MobDeref(MobFromMoo(moo)) == MooDeref(moo)
    ensures BooTryFromMob(mob).Ok? ==> BooDeref(BooTryFromMob(mob).value) == MobDeref(mob)
    ensures MooTryFromMob(mob).Ok? ==> MooDeref(MooTryFromMob(mob).value) == MobDeref(mob)
  {}

  /** `Mob::try_into_mut`, also `From<Mob> for Option<&mut T>`: the mutable reference, if any. */
  function MobTryIntoMut<T>(m: Mob<T>): (r: Option<Cell<T>>)
    ensures r.Some? <==> m.MobBorrowedMut?
    ensures r.Some? ==> r.value == m.m
  {
    match m
    case MobBorrowedMut(c) => Some(c)
    case _ => None
  }

  /** `Moo::try_into_mut`, also `From<Moo> for Option<&mut T>`: through `Mob`. */
  function MooTryIntoMut<T>(m: Moo<T>): (r: Option<Cell<T>>)
    ensures r.Some? <==> m.MooBorrowedMut?
    ensures r.Some? ==> r.value == m.m
  {
    MobTryIntoMut(MobFromMoo(m))
  }

  /** `Moo::expect_mut`: the panic on an owned value is excluded by the requires. */
  function MooExpectMut<T>(m: Moo<T>): (r: Cell<T>)
    requires m.MooBorrowedMut?
    ensures MooTryIntoMut(m) == Some(r)
  {
    MooTryIntoMut(m).value
  }

  /** `Moo::try_get_owned`: the owned value, if any. */
  function MooTryGetOwned<T>(m: Moo<T>): (r: Option<T>)
    ensures r.Some? <==> m.MooOwned?
    ensures r.Some? ==> r.value == m.t
  {
    match m
    case MooOwned(t) => Some(t)
    case MooBorrowedMut(_) => None
  }

  /** `Moo::expect_owned`: the panic on a borrow is excluded by the requires. */
  function MooExpectOwned<T>(m: Moo<T>): (r: T)
    requires m.MooOwned?
    ensures MooTryGetOwned(m) == Some(r)
  {
    MooTryGetOwned(m).value
  }

  /** A `Moo` is either owned or a mutable borrow: exactly one of the two accessors succeeds. */
  lemma MooOwnedOrMut<T>(m: Moo<T>)
    ensures MooTryGetOwned(m).Some? != MooTryIntoMut(m).Some?
  {}

  /** `Mob::try_as_mut`: the value a mutable reference would point at, absent for a shared borrow. */
  function MobTryAsMut<T>(m: Mob<T>): (r: Option<T>)
    reads MobCells(m)
    ensures r.None? <==> m.MobBorrowed?
    ensures r.Some? ==> r.value == MobDeref(m)
  {
    match m
    case MobOwned(t) => Some(t)
    case MobBorrowedMut(c) => Some(c.value)
    case MobBorrowed(_) => None
  }

  /** `Boo::from_coerce_ref` on a `Mob`: a mutable borrow becomes a shared borrow of the same referent. */
  function BooFromCoerceRef<T>(m: Mob<T>): (r: Boo<T>)
    ensures m.MobBorrowedMut? ==> r == BooBorrowed(m.m)
    ensures !m.MobBorrowedMut? ==> MobFromBoo(r) == m
    ensures BooCells(r) == MobCells(m)
  {
    match BooTryFromMob(m)
    case Ok(b) => b
    case Err(c) => BooBorrowed(c)
  }

  /** `Boo::from_coerce_ref` on a `Moo`, which converts through `Mob`. */
  function BooFromCoerceRefMoo<T>(m: Moo<T>): (r: Boo<T>)
    ensures m.MooOwned? ==> r == BooOwned(m.t)
    ensures m.MooBorrowedMut? ==> r == BooBorrowed(m.m)
  {
    BooFromCoerceRef(MobFromMoo(m))
  }

  /** Coercing keeps the pointed-to value. */
  lemma FromCoerceRefKeepsValue<T>(m: Mob<T>, moo: Moo<T>)
    ensures BooDeref(BooFromCoerceRef(m)) == MobDeref(m)
    ensures BooDeref(BooFromCoerceRefMoo(moo)) == MooDeref(moo)
  {}

  // `into_owned(deref)`: the owned value, or `deref` applied to the referent.

  function BooIntoOwned<T>(b: Boo<T>, deref: T -> T): (r: T)
    reads BooCells(b)
    ensures b.BooOwned? ==> r == b.t
    ensures b.BooBorrowed? ==> r == deref(BooDeref(b))
  {
    match b
    case BooOwned(t) => t
    case BooBorrowed(c) => deref(c.value)
  }

  function MobIntoOwned<T>(m: Mob<T>, deref: T -> T): (r: T)
    reads MobCells(m)
    ensures m.MobOwned? ==> r == m.t
    ensures !m.MobOwned? ==> r == deref(MobDeref(m))
  {
    match m
    case MobOwned(t) => t
    case MobBorrowed(c) => deref(c.value)
    case MobBorrowedMut(c) => deref(c.value)
  }

  function MooIntoOwned<T>(m: Moo<T>, deref: T -> T): (r: T)
    reads MooCells(m)
    ensures m.MooOwned? ==> r == m.t
    ensures m.MooBorrowedMut? ==> r == deref(MooDeref(m))
  {
    match m
    case MooOwned(t) => t
    case MooBorrowedMut(c) => deref(c.value)
  }

  /** `T::clone` and `|it| *it` on Dafny values. */
  function Clone<T>(t: T): T { t }

  /** `cloned` and `copied` are `into_owned` with a clone, so they give the pointed-to value for every pointer. */
  lemma ClonedIsDeref<T>(b: Boo<T>, mob: Mob<T>, moo: Moo<T>)
    ensures BooIntoOwned(b, Clone) == BooDeref(b)
    ensures MobIntoOwned(mob, Clone) == MobDeref(mob)
    ensures MooIntoOwned(moo, Clone) == MooDeref(moo)
  {}

  /** `Moo::from_mob_cloned`: a mutable borrow is kept, anything else is cloned into an owned value. */
  function MooFromMobCloned<T>(m: Mob<T>): (r: Moo<T>)
    reads MobCells(m)
    ensures r.MooBorrowedMut? <==> m.MobBorrowedMut?
    ensures r.MooBorrowedMut? ==> r.m == m.m
    ensures MooDeref(r) == MobDeref(m)
  {
    match m
    case MobBorrowedMut(c) => MooBorrowedMut(c)
    case _ => MooOwned(MobIntoOwned(m, Clone))
  }

  /**
   * `Mob::take_keep_ref`: a mutable borrow gives up its value, leaving
   * `T::default()` (here `default`) behind, and hands the reference back;
   * any other pointer is cloned and nothing changes.
   */
  method TakeKeepRef<T>(m: Mob<T>, default: T) returns (taken: T, kept: Option<Cell<T>>)
    modifies if m.MobBorrowedMut? then {m.m} else {}
    ensures taken == old(MobDeref(m))
    ensures kept == MobTryIntoMut(m)
    ensures m.MobBorrowedMut? ==> m.m.value == default
  {
    if m.MobBorrowedMut? {
      taken := m.m.value;
      m.m.value := default;
      kept := Some(m.m);
    } else {
      taken := MobIntoOwned(m, Clone);
      kept := None;
    }
  }

  /** `Moo::from_with_value`: writes `value` through the reference if there is one, otherwise owns it. */
  method MooFromWithValue<T>(maybeRef: Option<Cell<T>>, value: T) returns (r: Moo<T>)
    modifies if maybeRef.Some? then {maybeRef.value} else {}
    ensures MooDeref(r) == value
    ensures MooTryIntoMut(r) == maybeRef
  {
    if maybeRef.Some? {
      maybeRef.value.value := value;
      r := MooBorrowedMut(maybeRef.value);
    } else {
      r := MooOwned(value);
    }
  }

  /** `*moo = value` through `DerefMut`: an owned value is replaced, a borrow is written through. */
  method MooAssign<T>(m: Moo<T>, value: T) returns (r: Moo<T>)
    modifies MooCells(m)
    ensures MooDeref(r) == value
    ensures r.MooBorrowedMut? <==> m.MooBorrowedMut?
    ensures m.MooBorrowedMut? ==> r == m
  {
    if m.MooBorrowedMut? {
      m.m.value := value;
      r := m;
    } else {
      r := MooOwned(value);
    }
  }

  /** Writing a mutable borrow with `from_with_value` is seen by every pointer sharing that referent. */
  method SharedWriteExample() returns (seen: int)
    ensures seen == 7
  {
    var c := new Cell(3);
    var shared := MobBorrowedMut(c);
    var moo := MooFromWithValue(MobTryIntoMut(shared), 7);
    seen := MobDeref(shared);
  }
}
