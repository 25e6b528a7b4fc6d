/** The vectors, quaternions and 4x4 matrices of the editor's maths library, as free symbolic
    terms. Two values are equal only when they are built the same way, so no identity of
    floating-point arithmetic is ever relied on: every statement about transforms is about which
    operations were applied to which operands. */
module Geometry {
  datatype Vec3 =
    | Vec3(x: real, y: real, z: real)
    | VecSum(a: Vec3, b: Vec3)          // a + b
    | TranslationOf(m: Mat)             // the translation DecomposeTransform extracts from m
    | ScaleOf(m: Mat)                   // the scale DecomposeTransform extracts from m

  datatype Quat =
    | QuatIdentity
    | FromEulerDegrees(degrees: Vec3)   // glm::quat(glm::radians(degrees))
    | QuatProduct(a: Quat, b: Quat)     // a * b
    | RotationOf(m: Mat)                // the rotation DecomposeTransform extracts from m

  datatype Mat =
    | Identity
    | Mul(a: Mat, b: Mat)               // a * b
    | Compose(t: Vec3, r: Quat, s: Vec3) // translate(t) * toMat4(r) * scale(s)
    | Inverse(m: Mat)

  const Zero: Vec3 := Vec3(0.0, 0.0, 0.0)
  const One: Vec3 := Vec3(1.0, 1.0, 1.0)
}
