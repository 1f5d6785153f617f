/**
  The annotation schema: a keypoint is a pair of pixel coordinates, and the
  pair (-1, -1) is the sentinel for a joint the user skipped. Entry i of the
  keypoint list belongs to joint name i; the wireframe table lists the pairs
  of joints joined by a line.
 */
module Keypoints {

  /** `std::pair<int, int>`: `x` is `.first`, `y` is `.second`. */
  datatype Keypoint = Keypoint(x: int, y: int)

  /** What the Skip action appends. */
  const Skipped: Keypoint := Keypoint(-1, -1)

  predicate IsSkipped(k: Keypoint) {
    k.x == -1 && k.y == -1
  }

  /** The joint names, in the order the user clicks them. */
  const JointNames: seq<string> := [
    "camera",
    "left_shoulder", "right_shoulder",
    "left_elbow", "right_elbow",
    "left_wrist", "right_wrist",
    "left_hip", "right_hip",
    "left_knee", "right_knee",
    "left_ankle", "right_ankle"
  ]

  /** The number of wireframe edges. */
  const EdgeCount: nat := 12

  /**
    Wireframe edge `j` as a pair of keypoint indices, in drawing order: the
    shoulders, each arm, each shoulder to its hip, the hips, each leg. The
    first index is always the smaller one.
   */
  function Edge(j: nat): (e: (nat, nat))
    requires j < EdgeCount
    ensures 1 <= e.0 < e.1 <= 12
  {
    if j == 0 then (1, 2) else if j == 1 then (1, 3) else if j == 2 then (2, 4)
    else if j == 3 then (3, 5) else if j == 4 then (4, 6) else if j == 5 then (1, 7)
    else if j == 6 then (2, 8) else if j == 7 then (7, 8) else if j == 8 then (7, 9)
    else if j == 9 then (8, 10) else if j == 10 then (9, 11) else (10, 12)
  }
}
