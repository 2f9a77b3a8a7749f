/** The five rights of a base permission and the bit operations the checker performs on them. */
module BasePermission {

  /** A base permission: owned, read, write, exclusive read, exclusive write. */
  datatype Rights = Rights(o: bool, r: bool, w: bool, xr: bool, xw: bool)

  const NO_RIGHTS := Rights(false, false, false, false, false)
  const OWNED := Rights(true, false, false, false, false)
  const READ := Rights(false, true, false, false, false)
  const MUTABLE := Rights(false, true, true, true, true)
  const OWNED_MUTABLE := Rights(true, true, true, true, true)

  /** `a & b` */
  function And(a: Rights, b: Rights): Rights {
    Rights(a.o && b.o, a.r && b.r, a.w && b.w, a.xr && b.xr, a.xw && b.xw)
  }

  /** `a | b` */
  function Or(a: Rights, b: Rights): Rights {
    Rights(a.o || b.o, a.r || b.r, a.w || b.w, a.xr || b.xr, a.xw || b.xw)
  }

  /** `a &^ b` */
  function Minus(a: Rights, b: Rights): Rights {
    Rights(a.o && !b.o, a.r && !b.r, a.w && !b.w, a.xr && !b.xr, a.xw && !b.xw)
  }

  /** `a &^ b == 0` */
  predicate Within(a: Rights, b: Rights) {
    (a.o ==> b.o) && (a.r ==> b.r) && (a.w ==> b.w) && (a.xr ==> b.xr) && (a.xw ==> b.xw)
  }

  /** An exclusive right together with the right it makes exclusive. */
  predicate Linear(a: Rights) {
    (a.xw && a.w) || (a.xr && a.r)
  }
}
