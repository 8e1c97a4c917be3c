/**
 * Values shared by every part of the engine model: optional values, the
 * handles that stand for the engine's pointers, 3-vectors and 3x3 matrices
 * over the reals, C++ integer conversions, and the list helpers the engine's
 * containers need.
 */
module Common {

  datatype Option<T> = None | Some(value: T)

  /** The identity of a GameObject (its address in the engine). */
  type ObjId = nat

  /** The identity of a tree node (its index in the tree's node arena). */
  type NodeId = nat

  datatype Vec3 = Vec3(x: real, y: real, z: real)

  const Zero: Vec3 := Vec3(0.0, 0.0, 0.0)

  function Add(u: Vec3, v: Vec3): Vec3 { Vec3(u.x + v.x, u.y + v.y, u.z + v.z) }

  function Sub(u: Vec3, v: Vec3): Vec3 { Vec3(u.x - v.x, u.y - v.y, u.z - v.z) }

  function Scale(u: Vec3, k: real): Vec3 { Vec3(u.x * k, u.y * k, u.z * k) }

  /** Component-wise product, as Vector3 * Vector3. */
  function Mul(u: Vec3, v: Vec3): Vec3 { Vec3(u.x * v.x, u.y * v.y, u.z * v.z) }

  function Dot(u: Vec3, v: Vec3): real { u.x * v.x + u.y * v.y + u.z * v.z }

  function Cross(u: Vec3, v: Vec3): Vec3
  {
    Vec3(u.y * v.z - u.z * v.y, u.z * v.x - u.x * v.z, u.x * v.y - u.y * v.x)
  }

  function LengthSq(u: Vec3): real { Dot(u, u) }

  /**
   * Length(u) < t, written without a square root: a length is never negative,
   * so it can only be below a positive bound, and then comparing squares is exact.
   */
  predicate ShorterThan(u: Vec3, t: real) { 0.0 < t && LengthSq(u) < t * t }

  function AbsReal(r: real): real { if r < 0.0 then -r else r }

  function AbsVec(u: Vec3): Vec3 { Vec3(AbsReal(u.x), AbsReal(u.y), AbsReal(u.z)) }

  /** A 3x3 matrix by rows. */
  datatype Mat3 = Mat3(r0: Vec3, r1: Vec3, r2: Vec3)

  const Identity: Mat3 := Mat3(Vec3(1.0, 0.0, 0.0), Vec3(0.0, 1.0, 0.0), Vec3(0.0, 0.0, 1.0))

  function Transform(m: Mat3, v: Vec3): Vec3 { Vec3(Dot(m.r0, v), Dot(m.r1, v), Dot(m.r2, v)) }

  /** Matrix3::Absolute: every entry replaced by its magnitude. */
  function AbsMat(m: Mat3): Mat3 { Mat3(AbsVec(m.r0), AbsVec(m.r1), AbsVec(m.r2)) }

  /** A C++ float-to-int cast: truncation toward zero. */
  function TruncToInt(r: real): int
  {
    if r >= 0.0 then r.Floor else -((-r).Floor)
  }

  /** C++ integer division: the quotient is truncated toward zero. */
  function CDiv(a: int, b: int): int
    requires b != 0
  {
    if (a >= 0) == (b > 0) then AbsInt(a) / AbsInt(b) else -(AbsInt(a) / AbsInt(b))
  }

  function AbsInt(a: int): nat { if a < 0 then -a else a }

  lemma TruncToIntBounds(r: real)
    ensures r >= 0.0 ==> TruncToInt(r) as real <= r < TruncToInt(r) as real + 1.0
    ensures r < 0.0 ==> TruncToInt(r) as real - 1.0 < r <= TruncToInt(r) as real
  {
  }

  /** No element occurs twice. */
  predicate NoDup<T(==)>(s: seq<T>)
  {
    forall i, j :: 0 <= i < j < |s| ==> s[i] != s[j]
  }

  /** r is s with some of its elements left out and the others in their order. */
  predicate InOrder<T(==)>(r: seq<T>, s: seq<T>)
  {
    if r == [] then true
    else if s == [] then false
    else if r[|r| - 1] == s[|s| - 1] then InOrder(r[..|r| - 1], s[..|s| - 1])
    else InOrder(r, s[..|s| - 1])
  }

  /** std::list::remove and the erase-remove idiom: every occurrence of x goes, the rest keep their order. */
  function RemoveAll<T(==)>(s: seq<T>, x: T): (r: seq<T>)
    ensures x !in r
    ensures multiset(r) == multiset(s)[x := 0]
    ensures |r| == |s| - multiset(s)[x]
    ensures forall i :: 0 <= i < |r| ==> r[i] in s
    ensures forall i :: 0 <= i < |s| && s[i] != x ==> s[i] in r
    ensures InOrder(r, s)
  {
    if s == [] then []
    else
      var init, last := s[..|s| - 1], s[|s| - 1];
      var rest := RemoveAll(init, x);
      assert s == init + [last];
      assert multiset(s) == multiset(init) + multiset{last};
      var r := if last == x then rest else rest + [last];
      assert multiset(r) == multiset(s)[x := 0];
      assert forall i :: 0 <= i < |r| ==> r[i] in s by {
        forall i | 0 <= i < |r| ensures r[i] in s {
          if i < |rest| {
            assert r[i] == rest[i] && rest[i] in init;
          }
        }
      }
      assert forall i :: 0 <= i < |s| && s[i] != x ==> s[i] in r by {
        forall i | 0 <= i < |s| && s[i] != x ensures s[i] in r {
          if i < |init| {
            assert s[i] == init[i] && init[i] in rest;
          }
        }
      }
      r
  }

  lemma {:induction false} RemoveAllAbsent<T>(s: seq<T>, x: T)
    requires x !in s
    ensures RemoveAll(s, x) == s
  {
    if s != [] {
      var init := s[..|s| - 1];
      assert s == init + [s[|s| - 1]];
      assert x !in init;
      RemoveAllAbsent(init, x);
    }
  }

  /** A list back to front. */
  function Reversed<T>(s: seq<T>): (r: seq<T>)
    ensures |r| == |s| && forall i :: 0 <= i < |s| ==> r[i] == s[|s| - 1 - i]
  {
    if s == [] then [] else Reversed(s[1..]) + [s[0]]
  }
}
