/**
  The Data Encryption Standard as section "Data Encryption Algorithm" of FIPS PUB 46-3 defines it,
  on lists of bits numbered as in the standard, with the salted E expansion of crypt(3).  This is the
  reference the table-driven code is compared with.
 */
module DesStandard {
  import opened BitStrings

  // ---------------------------------------------------------------------------------------
  // The tables of the standard: entry i, counted from 0, is a bit number counted from 1

  /** IP, the initial permutation. */
  function IpEntry(i: nat): (r: nat)
    ensures 1 <= r <= 64
  {
    match i
    case 0 => 58 case 1 => 50 case 2 => 42 case 3 => 34 case 4 => 26 case 5 => 18 case 6 => 10 case 7 => 2
    case 8 => 60 case 9 => 52 case 10 => 44 case 11 => 36 case 12 => 28 case 13 => 20 case 14 => 12 case 15 => 4
    case 16 => 62 case 17 => 54 case 18 => 46 case 19 => 38 case 20 => 30 case 21 => 22 case 22 => 14 case 23 => 6
    case 24 => 64 case 25 => 56 case 26 => 48 case 27 => 40 case 28 => 32 case 29 => 24 case 30 => 16 case 31 => 8
    case 32 => 57 case 33 => 49 case 34 => 41 case 35 => 33 case 36 => 25 case 37 => 17 case 38 => 9 case 39 => 1
    case 40 => 59 case 41 => 51 case 42 => 43 case 43 => 35 case 44 => 27 case 45 => 19 case 46 => 11 case 47 => 3
    case 48 => 61 case 49 => 53 case 50 => 45 case 51 => 37 case 52 => 29 case 53 => 21 case 54 => 13 case 55 => 5
    case 56 => 63 case 57 => 55 case 58 => 47 case 59 => 39 case 60 => 31 case 61 => 23 case 62 => 15 case _ => 7
  }

  /** The inverse of IP, the final permutation. */
  function FpEntry(i: nat): (r: nat)
    ensures 1 <= r <= 64
  {
    match i
    case 0 => 40 case 1 => 8 case 2 => 48 case 3 => 16 case 4 => 56 case 5 => 24 case 6 => 64 case 7 => 32
    case 8 => 39 case 9 => 7 case 10 => 47 case 11 => 15 case 12 => 55 case 13 => 23 case 14 => 63 case 15 => 31
    case 16 => 38 case 17 => 6 case 18 => 46 case 19 => 14 case 20 => 54 case 21 => 22 case 22 => 62 case 23 => 30
    case 24 => 37 case 25 => 5 case 26 => 45 case 27 => 13 case 28 => 53 case 29 => 21 case 30 => 61 case 31 => 29
    case 32 => 36 case 33 => 4 case 34 => 44 case 35 => 12 case 36 => 52 case 37 => 20 case 38 => 60 case 39 => 28
    case 40 => 35 case 41 => 3 case 42 => 43 case 43 => 11 case 44 => 51 case 45 => 19 case 46 => 59 case 47 => 27
    case 48 => 34 case 49 => 2 case 50 => 42 case 51 => 10 case 52 => 50 case 53 => 18 case 54 => 58 case 55 => 26
    case 56 => 33 case 57 => 1 case 58 => 41 case 59 => 9 case 60 => 49 case 61 => 17 case 62 => 57 case _ => 25
  }

  /** E, the expansion of 32 bits to 48. */
  function EEntry(i: nat): (r: nat)
    ensures 1 <= r <= 32
  {
    match i
    case 0 => 32 case 1 => 1 case 2 => 2 case 3 => 3 case 4 => 4 case 5 => 5
    case 6 => 4 case 7 => 5 case 8 => 6 case 9 => 7 case 10 => 8 case 11 => 9
    case 12 => 8 case 13 => 9 case 14 => 10 case 15 => 11 case 16 => 12 case 17 => 13
    case 18 => 12 case 19 => 13 case 20 => 14 case 21 => 15 case 22 => 16 case 23 => 17
    case 24 => 16 case 25 => 17 case 26 => 18 case 27 => 19 case 28 => 20 case 29 => 21
    case 30 => 20 case 31 => 21 case 32 => 22 case 33 => 23 case 34 => 24 case 35 => 25
    case 36 => 24 case 37 => 25 case 38 => 26 case 39 => 27 case 40 => 28 case 41 => 29
    case 42 => 28 case 43 => 29 case 44 => 30 case 45 => 31 case 46 => 32 case _ => 1
  }

  /** P, the permutation of the S-box output. */
  function PEntry(i: nat): (r: nat)
    ensures 1 <= r <= 32
  {
    match i
    case 0 => 16 case 1 => 7 case 2 => 20 case 3 => 21 case 4 => 29 case 5 => 12 case 6 => 28 case 7 => 17
    case 8 => 1 case 9 => 15 case 10 => 23 case 11 => 26 case 12 => 5 case 13 => 18 case 14 => 31 case 15 => 10
    case 16 => 2 case 17 => 8 case 18 => 24 case 19 => 14 case 20 => 32 case 21 => 27 case 22 => 3 case 23 => 9
    case 24 => 19 case 25 => 13 case 26 => 30 case 27 => 6 case 28 => 22 case 29 => 11 case 30 => 4 case _ => 25
  }

  /** Permuted choice 1, 56 key bits without the parity bits. */
  function Pc1Entry(i: nat): (r: nat)
    ensures 1 <= r <= 64
  {
    match i
    case 0 => 57 case 1 => 49 case 2 => 41 case 3 => 33 case 4 => 25 case 5 => 17 case 6 => 9
    case 7 => 1 case 8 => 58 case 9 => 50 case 10 => 42 case 11 => 34 case 12 => 26 case 13 => 18
    case 14 => 10 case 15 => 2 case 16 => 59 case 17 => 51 case 18 => 43 case 19 => 35 case 20 => 27
    case 21 => 19 case 22 => 11 case 23 => 3 case 24 => 60 case 25 => 52 case 26 => 44 case 27 => 36
    case 28 => 63 case 29 => 55 case 30 => 47 case 31 => 39 case 32 => 31 case 33 => 23 case 34 => 15
    case 35 => 7 case 36 => 62 case 37 => 54 case 38 => 46 case 39 => 38 case 40 => 30 case 41 => 22
    case 42 => 14 case 43 => 6 case 44 => 61 case 45 => 53 case 46 => 45 case 47 => 37 case 48 => 29
    case 49 => 21 case 50 => 13 case 51 => 5 case 52 => 28 case 53 => 20 case 54 => 12 case _ => 4
  }

  /** Permuted choice 2, 48 of the 56 shifted key bits. */
  function Pc2Entry(i: nat): (r: nat)
    ensures 1 <= r <= 56
  {
    match i
    case 0 => 14 case 1 => 17 case 2 => 11 case 3 => 24 case 4 => 1 case 5 => 5
    case 6 => 3 case 7 => 28 case 8 => 15 case 9 => 6 case 10 => 21 case 11 => 10
    case 12 => 23 case 13 => 19 case 14 => 12 case 15 => 4 case 16 => 26 case 17 => 8
    case 18 => 16 case 19 => 7 case 20 => 27 case 21 => 20 case 22 => 13 case 23 => 2
    case 24 => 41 case 25 => 52 case 26 => 31 case 27 => 37 case 28 => 47 case 29 => 55
    case 30 => 30 case 31 => 40 case 32 => 51 case 33 => 45 case 34 => 33 case 35 => 48
    case 36 => 44 case 37 => 49 case 38 => 39 case 39 => 56 case 40 => 34 case 41 => 53
    case 42 => 46 case 43 => 42 case 44 => 50 case 45 => 36 case 46 => 29 case _ => 32
  }

  /** The number of left shifts before round i + 1. */
  function Rotation(i: nat): (r: nat)
    ensures 1 <= r <= 2
  {
    match i
    case 0 => 1 case 1 => 1 case 2 => 2 case 3 => 2 case 4 => 2 case 5 => 2 case 6 => 2 case 7 => 2
    case 8 => 1 case 9 => 2 case 10 => 2 case 11 => 2 case 12 => 2 case 13 => 2 case 14 => 2 case _ => 1
  }

  type Nibble = n: nat | n < 16

  function S1(row: nat, col: nat): Nibble {
    match row
    case 0 => (match col
      case 0 => 14 case 1 => 4 case 2 => 13 case 3 => 1 case 4 => 2 case 5 => 15 case 6 => 11 case 7 => 8
      case 8 => 3 case 9 => 10 case 10 => 6 case 11 => 12 case 12 => 5 case 13 => 9 case 14 => 0 case _ => 7)
    case 1 => (match col
      case 0 => 0 case 1 => 15 case 2 => 7 case 3 => 4 case 4 => 14 case 5 => 2 case 6 => 13 case 7 => 1
      case 8 => 10 case 9 => 6 case 10 => 12 case 11 => 11 case 12 => 9 case 13 => 5 case 14 => 3 case _ => 8)
    case 2 => (match col
      case 0 => 4 case 1 => 1 case 2 => 14 case 3 => 8 case 4 => 13 case 5 => 6 case 6 => 2 case 7 => 11
      case 8 => 15 case 9 => 12 case 10 => 9 case 11 => 7 case 12 => 3 case 13 => 10 case 14 => 5 case _ => 0)
    case _ => (match col
      case 0 => 15 case 1 => 12 case 2 => 8 case 3 => 2 case 4 => 4 case 5 => 9 case 6 => 1 case 7 => 7
      case 8 => 5 case 9 => 11 case 10 => 3 case 11 => 14 case 12 => 10 case 13 => 0 case 14 => 6 case _ => 13)
  }

  function S2(row: nat, col: nat): Nibble {
    match row
    case 0 => (match col
      case 0 => 15 case 1 => 1 case 2 => 8 case 3 => 14 case 4 => 6 case 5 => 11 case 6 => 3 case 7 => 4
      case 8 => 9 case 9 => 7 case 10 => 2 case 11 => 13 case 12 => 12 case 13 => 0 case 14 => 5 case _ => 10)
    case 1 => (match col
      case 0 => 3 case 1 => 13 case 2 => 4 case 3 => 7 case 4 => 15 case 5 => 2 case 6 => 8 case 7 => 14
      case 8 => 12 case 9 => 0 case 10 => 1 case 11 => 10 case 12 => 6 case 13 => 9 case 14 => 11 case _ => 5)
    case 2 => (match col
      case 0 => 0 case 1 => 14 case 2 => 7 case 3 => 11 case 4 => 10 case 5 => 4 case 6 => 13 case 7 => 1
      case 8 => 5 case 9 => 8 case 10 => 12 case 11 => 6 case 12 => 9 case 13 => 3 case 14 => 2 case _ => 15)
    case _ => (match col
      case 0 => 13 case 1 => 8 case 2 => 10 case 3 => 1 case 4 => 3 case 5 => 15 case 6 => 4 case 7 => 2
      case 8 => 11 case 9 => 6 case 10 => 7 case 11 => 12 case 12 => 0 case 13 => 5 case 14 => 14 case _ => 9)
  }

  function S3(row: nat, col: nat): Nibble {
    match row
    case 0 => (match col
      case 0 => 10 case 1 => 0 case 2 => 9 case 3 => 14 case 4 => 6 case 5 => 3 case 6 => 15 case 7 => 5
      case 8 => 1 case 9 => 13 case 10 => 12 case 11 => 7 case 12 => 11 case 13 => 4 case 14 => 2 case _ => 8)
    case 1 => (match col
      case 0 => 13 case 1 => 7 case 2 => 0 case 3 => 9 case 4 => 3 case 5 => 4 case 6 => 6 case 7 => 10
      case 8 => 2 case 9 => 8 case 10 => 5 case 11 => 14 case 12 => 12 case 13 => 11 case 14 => 15 case _ => 1)
    case 2 => (match col
      case 0 => 13 case 1 => 6 case 2 => 4 case 3 => 9 case 4 => 8 case 5 => 15 case 6 => 3 case 7 => 0
      case 8 => 11 case 9 => 1 case 10 => 2 case 11 => 12 case 12 => 5 case 13 => 10 case 14 => 14 case _ => 7)
    case _ => (match col
      case 0 => 1 case 1 => 10 case 2 => 13 case 3 => 0 case 4 => 6 case 5 => 9 case 6 => 8 case 7 => 7
      case 8 => 4 case 9 => 15 case 10 => 14 case 11 => 3 case 12 => 11 case 13 => 5 case 14 => 2 case _ => 12)
  }

  function S4(row: nat, col: nat): Nibble {
    match row
    case 0 => (match col
      case 0 => 7 case 1 => 13 case 2 => 14 case 3 => 3 case 4 => 0 case 5 => 6 case 6 => 9 case 7 => 10
      case 8 => 1 case 9 => 2 case 10 => 8 case 11 => 5 case 12 => 11 case 13 => 12 case 14 => 4 case _ => 15)
    case 1 => (match col
      case 0 => 13 case 1 => 8 case 2 => 11 case 3 => 5 case 4 => 6 case 5 => 15 case 6 => 0 case 7 => 3
      case 8 => 4 case 9 => 7 case 10 => 2 case 11 => 12 case 12 => 1 case 13 => 10 case 14 => 14 case _ => 9)
    case 2 => (match col
      case 0 => 10 case 1 => 6 case 2 => 9 case 3 => 0 case 4 => 12 case 5 => 11 case 6 => 7 case 7 => 13
      case 8 => 15 case 9 => 1 case 10 => 3 case 11 => 14 case 12 => 5 case 13 => 2 case 14 => 8 case _ => 4)
    case _ => (match col
      case 0 => 3 case 1 => 15 case 2 => 0 case 3 => 6 case 4 => 10 case 5 => 1 case 6 => 13 case 7 => 8
      case 8 => 9 case 9 => 4 case 10 => 5 case 11 => 11 case 12 => 12 case 13 => 7 case 14 => 2 case _ => 14)
  }

  function S5(row: nat, col: nat): Nibble {
    match row
    case 0 => (match col
      case 0 => 2 case 1 => 12 case 2 => 4 case 3 => 1 case 4 => 7 case 5 => 10 case 6 => 11 case 7 => 6
      case 8 => 8 case 9 => 5 case 10 => 3 case 11 => 15 case 12 => 13 case 13 => 0 case 14 => 14 case _ => 9)
    case 1 => (match col
      case 0 => 14 case 1 => 11 case 2 => 2 case 3 => 12 case 4 => 4 case 5 => 7 case 6 => 13 case 7 => 1
      case 8 => 5 case 9 => 0 case 10 => 15 case 11 => 10 case 12 => 3 case 13 => 9 case 14 => 8 case _ => 6)
    case 2 => (match col
      case 0 => 4 case 1 => 2 case 2 => 1 case 3 => 11 case 4 => 10 case 5 => 13 case 6 => 7 case 7 => 8
      case 8 => 15 case 9 => 9 case 10 => 12 case 11 => 5 case 12 => 6 case 13 => 3 case 14 => 0 case _ => 14)
    case _ => (match col
      case 0 => 11 case 1 => 8 case 2 => 12 case 3 => 7 case 4 => 1 case 5 => 14 case 6 => 2 case 7 => 13
      case 8 => 6 case 9 => 15 case 10 => 0 case 11 => 9 case 12 => 10 case 13 => 4 case 14 => 5 case _ => 3)
  }

  function S6(row: nat, col: nat): Nibble {
    match row
    case 0 => (match col
      case 0 => 12 case 1 => 1 case 2 => 10 case 3 => 15 case 4 => 9 case 5 => 2 case 6 => 6 case 7 => 8
      case 8 => 0 case 9 => 13 case 10 => 3 case 11 => 4 case 12 => 14 case 13 => 7 case 14 => 5 case _ => 11)
    case 1 => (match col
      case 0 => 10 case 1 => 15 case 2 => 4 case 3 => 2 case 4 => 7 case 5 => 12 case 6 => 9 case 7 => 5
      case 8 => 6 case 9 => 1 case 10 => 13 case 11 => 14 case 12 => 0 case 13 => 11 case 14 => 3 case _ => 8)
    case 2 => (match col
      case 0 => 9 case 1 => 14 case 2 => 15 case 3 => 5 case 4 => 2 case 5 => 8 case 6 => 12 case 7 => 3
      case 8 => 7 case 9 => 0 case 10 => 4 case 11 => 10 case 12 => 1 case 13 => 13 case 14 => 11 case _ => 6)
    case _ => (match col
      case 0 => 4 case 1 => 3 case 2 => 2 case 3 => 12 case 4 => 9 case 5 => 5 case 6 => 15 case 7 => 10
      case 8 => 11 case 9 => 14 case 10 => 1 case 11 => 7 case 12 => 6 case 13 => 0 case 14 => 8 case _ => 13)
  }

  function S7(row: nat, col: nat): Nibble {
    match row
    case 0 => (match col
      case 0 => 4 case 1 => 11 case 2 => 2 case 3 => 14 case 4 => 15 case 5 => 0 case 6 => 8 case 7 => 13
      case 8 => 3 case 9 => 12 case 10 => 9 case 11 => 7 case 12 => 5 case 13 => 10 case 14 => 6 case _ => 1)
    case 1 => (match col
      case 0 => 13 case 1 => 0 case 2 => 11 case 3 => 7 case 4 => 4 case 5 => 9 case 6 => 1 case 7 => 10
      case 8 => 14 case 9 => 3 case 10 => 5 case 11 => 12 case 12 => 2 case 13 => 15 case 14 => 8 case _ => 6)
    case 2 => (match col
      case 0 => 1 case 1 => 4 case 2 => 11 case 3 => 13 case 4 => 12 case 5 => 3 case 6 => 7 case 7 => 14
      case 8 => 10 case 9 => 15 case 10 => 6 case 11 => 8 case 12 => 0 case 13 => 5 case 14 => 9 case _ => 2)
    case _ => (match col
      case 0 => 6 case 1 => 11 case 2 => 13 case 3 => 8 case 4 => 1 case 5 => 4 case 6 => 10 case 7 => 7
      case 8 => 9 case 9 => 5 case 10 => 0 case 11 => 15 case 12 => 14 case 13 => 2 case 14 => 3 case _ => 12)
  }

  function S8(row: nat, col: nat): Nibble {
    match row
    case 0 => (match col
      case 0 => 13 case 1 => 2 case 2 => 8 case 3 => 4 case 4 => 6 case 5 => 15 case 6 => 11 case 7 => 1
      case 8 => 10 case 9 => 9 case 10 => 3 case 11 => 14 case 12 => 5 case 13 => 0 case 14 => 12 case _ => 7)
    case 1 => (match col
      case 0 => 1 case 1 => 15 case 2 => 13 case 3 => 8 case 4 => 10 case 5 => 3 case 6 => 7 case 7 => 4
      case 8 => 12 case 9 => 5 case 10 => 6 case 11 => 11 case 12 => 0 case 13 => 14 case 14 => 9 case _ => 2)
    case 2 => (match col
      case 0 => 7 case 1 => 11 case 2 => 4 case 3 => 1 case 4 => 9 case 5 => 12 case 6 => 14 case 7 => 2
      case 8 => 0 case 9 => 6 case 10 => 10 case 11 => 13 case 12 => 15 case 13 => 3 case 14 => 5 case _ => 8)
    case _ => (match col
      case 0 => 2 case 1 => 1 case 2 => 14 case 3 => 7 case 4 => 4 case 5 => 10 case 6 => 8 case 7 => 13
      case 8 => 15 case 9 => 12 case 10 => 9 case 11 => 0 case 12 => 3 case 13 => 5 case 14 => 6 case _ => 11)
  }

  /** Entry x of S-box i, counted from 0, by rows of 16. */
  function SBox(i: nat, x: nat): Nibble {
    var row, col := x / 16, x % 16;
    match i
    case 0 => S1(row, col) case 1 => S2(row, col) case 2 => S3(row, col) case 3 => S4(row, col)
    case 4 => S5(row, col) case 5 => S6(row, col) case 6 => S7(row, col) case _ => S8(row, col)
  }

  /** A table whose entries are bit numbers of an n-bit string. */
  ghost predicate Selects(t: seq<nat>, n: nat) {
    forall i :: 0 <= i < |t| ==> 1 <= t[i] <= n
  }

  // The tables as lists

  function IP(): (t: seq<nat>)
    ensures |t| == 64 && Selects(t, 64)
  {
    seq(64, i requires 0 <= i => IpEntry(i))
  }

  function FP(): (t: seq<nat>)
    ensures |t| == 64 && Selects(t, 64)
  {
    seq(64, i requires 0 <= i => FpEntry(i))
  }

  function E(): (t: seq<nat>)
    ensures |t| == 48 && Selects(t, 32)
  {
    seq(48, i requires 0 <= i => EEntry(i))
  }

  function P(): (t: seq<nat>)
    ensures |t| == 32 && Selects(t, 32)
  {
    seq(32, i requires 0 <= i => PEntry(i))
  }

  function PC1(): (t: seq<nat>)
    ensures |t| == 56 && Selects(t, 64)
  {
    seq(56, i requires 0 <= i => Pc1Entry(i))
  }

  function PC2(): (t: seq<nat>)
    ensures |t| == 48 && Selects(t, 56)
  {
    seq(48, i requires 0 <= i => Pc2Entry(i))
  }

  /** Output bit i is input bit t[i]. */
  function Permute(t: seq<nat>, x: Bits): (r: Bits)
    requires Selects(t, |x|)
    ensures |r| == |t| && forall i :: 0 <= i < |t| ==> r[i] == x[t[i] - 1]
  {
    seq(|t|, i requires 0 <= i < |t| => x[t[i] - 1])
  }

  // ---------------------------------------------------------------------------------------
  // The cipher function

  type Half = x: Bits | |x| == 32 witness Zeros(32)
  type RoundKey = x: Bits | |x| == 48 witness Zeros(48)
  type Salt = x: Bits | |x| == 24 witness Zeros(24)
  type Block = x: Bits | |x| == 64 witness Zeros(64)
  type Schedule = x: seq<RoundKey> | |x| == 16 witness seq(16, _ => Zeros(48))

  /** E, with output bits i and i + 24 exchanged where bit i of the salt is set. */
  function SaltedE(r: Half, salt: Salt): (x: RoundKey) {
    var e := Permute(E(), r);
    seq(48, i requires 0 <= i < 48 =>
      if i < 24 then (if salt[i] then e[i + 24] else e[i]) else (if salt[i - 24] then e[i - 24] else e[i]))
  }

  /** The value of S-box i on six bits: the outer two give the row, the inner four the column. */
  function Substitute(i: nat, b: Bits): (n: Nibble)
    requires |b| == 6
  {
    SBox(i, 16 * (2 * Digit(b[0]) + Digit(b[5])) + ToNat(b[1..5]))
  }

  /** S-boxes 1 to n applied to the first 6 n bits. */
  function Substitutes(x: RoundKey, n: nat): (r: Bits)
    requires n <= 8
    ensures |r| == 4 * n
  {
    if n == 0 then [] else Substitutes(x, n - 1) + FromNat(Substitute(n - 1, x[6 * n - 6..6 * n]), 4)
  }

  /** f(R, K). */
  function F(r: Half, k: RoundKey, salt: Salt): (x: Half) {
    Permute(P(), Substitutes(Xor(SaltedE(r, salt), k), 8))
  }

  // ---------------------------------------------------------------------------------------
  // Enciphering

  datatype Pair = Pair(l: Half, r: Half)

  /** L and R after n rounds. */
  function Rounds(x: Pair, keys: Schedule, salt: Salt, n: nat): Pair
    requires n <= 16
  {
    if n == 0 then x else
      var y := Rounds(x, keys, salt, n - 1);
      Pair(y.r, Xor(y.l, F(y.r, keys[n - 1], salt)))
  }

  /** The computation between the initial and the final permutation: 16 rounds and the exchange. */
  function Core(x: Pair, keys: Schedule, salt: Salt): Pair {
    var y := Rounds(x, keys, salt, 16);
    Pair(y.r, y.l)
  }

  function Halves(x: Block): Pair {
    Pair(x[..32], x[32..])
  }

  function Join(l: Half, r: Half): (x: Block)
    ensures x[..32] == l && x[32..] == r
  {
    l + r
  }

  function Joined(p: Pair): Block {
    Join(p.l, p.r)
  }

  /** Enciphering one block. */
  function Encipher(x: Block, keys: Schedule, salt: Salt): Block {
    Permute(FP(), Joined(Core(Halves(Permute(IP(), x)), keys, salt)))
  }

  function EncipherTimes(x: Block, keys: Schedule, salt: Salt, n: nat): Block {
    if n == 0 then x else Encipher(EncipherTimes(x, keys, salt, n - 1), keys, salt)
  }

  /** Deciphering uses the round keys in the opposite order. */
  function Reversed(keys: Schedule): Schedule {
    seq(16, i requires 0 <= i < 16 => keys[15 - i])
  }

  // ---------------------------------------------------------------------------------------
  // The key schedule

  /** The number of left shifts in the first n rounds. */
  function Shifts(n: nat): (s: nat)
    requires n <= 16
    ensures n <= s <= 2 * n
  {
    if n == 0 then 0 else Shifts(n - 1) + Rotation(n - 1)
  }

  function RotateLeft(c: Bits, k: nat): (r: Bits)
    requires k <= |c|
    ensures |r| == |c|
  {
    c[k..] + c[..k]
  }

  /** Round key n + 1. */
  function RoundKeyOf(key: Block, n: nat): RoundKey
    requires n < 16
  {
    ShiftsFit(n + 1);
    var cd := Permute(PC1(), key);
    var s := Shifts(n + 1);
    Permute(PC2(), RotateLeft(cd[..28], s) + RotateLeft(cd[28..], s))
  }

  lemma ShiftsFit(n: nat)
    requires n <= 16
    ensures Shifts(n) <= 28
  {
    assert Shifts(4) == 6;
    assert Shifts(8) == 14;
    assert Shifts(12) == 21;
    assert Shifts(16) == 28;
    assert n < 16 ==> Shifts(n) <= 28;
  }

  function KeySchedule(key: Block): Schedule {
    seq(16, i requires 0 <= i < 16 => RoundKeyOf(key, i))
  }
}
