/**
 Why the buffer that `parse_string` allocates suffices (components/cJSON/cJSON.c:805-896).  The first
 pass counts a backslash and the byte behind it as one byte of output; the second pass takes escapes
 of 2, 6 or 12 bytes, and after a malformed one it may be out of step with the first by one byte.
 */
module StringRoom {
  import opened Bytes
  import opened ParseSpec
  import opened Utf16

  /** The first pass comes by `q` and ends at the quote at `end`. */
  ghost predicate Boundary(c: Text, q: nat, end: nat) {
    ClosingQuote(c, q) == Some(end)
  }

  /** How many escapes the first pass still counts. */
  function Escapes(c: Text, q: nat, end: nat): nat
    requires end <= |c|
    decreases end - q
  {
    if q >= end then 0 else if c[q] == '\\' then 1 + Escapes(c, q + 2, end) else Escapes(c, q + 1, end)
  }

  /**
   The bytes that may still be written when the second pass is at `p`; `q` is where the first pass
   comes by next.
   */
  function Room(c: Text, p: nat, q: nat, end: nat): int
    requires end <= |c|
  {
    if p >= end then 0 else end - p - Escapes(c, q, end)
  }

  /** The second pass is in step with the first, or one byte behind it. */
  ghost predicate InStep(c: Text, p: nat, q: nat, end: nat) {
    end < |c| && (p < end ==> Boundary(c, q, end) && (q == p || q == p + 1))
  }

  lemma {:induction false} EscapesBound(c: Text, q: nat, end: nat)
    requires end <= |c| && Boundary(c, q, end)
    ensures 2 * Escapes(c, q, end) <= end - q
    decreases end - q
  {
    if q < end {
      EscapesBound(c, if c[q] == '\\' then q + 2 else q + 1, end);
    }
  }

  lemma RoomIsLeft(c: Text, p: nat, q: nat, end: nat)
    requires InStep(c, p, q, end)
    ensures Room(c, p, q, end) >= 0
  {
    if p < end {
      EscapesBound(c, q, end);
    }
  }

  /** Where the first pass comes by at or behind `t`. */
  lemma {:induction false} NextBoundary(c: Text, q: nat, end: nat, t: nat) returns (r: nat)
    requires end < |c| && Boundary(c, q, end) && t <= end && q <= t + 1
    ensures Boundary(c, r, end) && (r == t || r == t + 1) && q <= r
    ensures 2 * (Escapes(c, q, end) - Escapes(c, r, end)) <= r - q
    decreases end - q
  {
    if q >= t {
      r := q;
    } else {
      r := NextBoundary(c, if c[q] == '\\' then q + 2 else q + 1, end, t);
    }
  }

  /** An escape of `k` bytes may write `w` bytes when `w` is at most half of `k`. */
  lemma EscapeStep(c: Text, p: nat, q: nat, end: nat, k: nat, w: nat) returns (r: nat)
    requires InStep(c, p, q, end) && p < end && c[p] == '\\'
    requires 2 <= k && k % 2 == 0 && 2 * w <= k && (p + k <= end || k == 2)
    ensures InStep(c, p + k, r, end) && w + Room(c, p + k, r, end) <= Room(c, p, q, end)
  {
    if p + k < end {
      r := NextBoundary(c, q, end, p + k);
    } else if p + k == end {
      r := NextBoundary(c, q, end, end);
      EscapesBound(c, q, end);
    } else {
      r := q;
      EscapesBound(c, q, end);
    }
  }

  lemma ByteStep(c: Text, p: nat, q: nat, end: nat) returns (r: nat)
    requires InStep(c, p, q, end) && p < end && c[p] != '\\'
    ensures InStep(c, p + 1, r, end) && 1 + Room(c, p + 1, r, end) <= Room(c, p, q, end)
  {
    r := if q == p then p + 1 else q;
    EscapesBound(c, q, end);
  }
}
