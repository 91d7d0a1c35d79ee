/** The distances a control byte of the bytell table can jump. */
module BytellJumps {
  import opened BytellChains

  /** The distances a control byte can jump: the first integers, then triangular
      numbers, then triangular numbers growing steeply. */
  function JumpDistances(): (r: seq<nat>)
    ensures |r| == NUM_JUMP_DISTANCES
  {
    seq(16, i => i)
    + seq(66, i requires i >= 0 => (i + 6) * (i + 7) / 2)
    + [ 3741, 8385, 18915, 42486, 95703, 215496, 485605, 1091503, 2456436,
        5529475, 12437578, 27986421, 62972253, 141700195, 318819126, 717314626,
        1614000520, 3631437253, 8170829695, 18384318876, 41364501751, 93070021080 ]
    + [ 209407709220, 471167588430, 1060127437995, 2385287281530,
        5366895564381, 12075513791265, 27169907873235, 61132301007778,
        137547673121001, 309482258302503, 696335090510256, 1566753939653640,
        3525196427195653, 7931691866727775, 17846306747368716,
        40154190394120111, 90346928493040500, 203280588949935750,
        457381324898247375, 1029107980662394500, 2315492957028380766,
        5209859150892887590 ]
  }

  ghost predicate IsTriangular(x: nat, root: nat) {
    2 * x == root * (root + 1)
  }

  /** The roots of the steep triangular numbers. */
  function SteepRoots(): (r: seq<nat>)
    ensures |r| == 44
  {
    [
      86, 129, 194, 291, 437, 656, 985, 1477, 2216, 3325, 4987, 7481, 11222, 16834, 25251, 37876,
      56815, 85222, 127834, 191751, 287626, 431439
    ] + [
      647159, 970739, 1456109, 2184164, 3276246, 4914369, 7371554, 11057332, 16585998, 24878997,
      37318496, 55977744, 83966617, 125949925, 188924888, 283387333, 425081000, 637621500,
      956432250, 1434648375, 2151972563, 3227958844
    ]
  }

  /** A root is one and a half times the one before, to within one. */
  ghost predicate IsSteep(root: nat, next: nat) {
    3 * root - 2 <= 2 * next <= 3 * root + 2
  }

  ghost predicate SteepAt(i: nat)
    requires i < 44
  {
    && IsTriangular(JumpDistances()[82 + i], SteepRoots()[i])
    && (i > 0 ==> IsSteep(SteepRoots()[i - 1], SteepRoots()[i]))
  }

  lemma LowerJumps()
    ensures forall i :: 0 <= i < 11 ==> SteepAt(i)
  {
    assert SteepAt(0);
    assert SteepAt(1);
    assert SteepAt(2);
    assert SteepAt(3);
    assert SteepAt(4);
    assert SteepAt(5);
    assert SteepAt(6);
    assert SteepAt(7);
    assert SteepAt(8);
    assert SteepAt(9);
    assert SteepAt(10);
  }

  lemma MiddleJumps()
    ensures forall i :: 11 <= i < 22 ==> SteepAt(i)
  {
    assert SteepAt(11);
    assert SteepAt(12);
    assert SteepAt(13);
    assert SteepAt(14);
    assert SteepAt(15);
    assert SteepAt(16);
    assert SteepAt(17);
    assert SteepAt(18);
    assert SteepAt(19);
    assert SteepAt(20);
    assert SteepAt(21);
  }

  lemma UpperJumps()
    ensures forall i :: 22 <= i < 33 ==> SteepAt(i)
  {
    assert SteepAt(22);
    assert SteepAt(23);
    assert SteepAt(24);
    assert SteepAt(25);
    assert SteepAt(26);
    assert SteepAt(27);
    assert SteepAt(28);
    assert SteepAt(29);
    assert SteepAt(30);
    assert SteepAt(31);
    assert SteepAt(32);
  }

  lemma TopJumps()
    ensures forall i :: 33 <= i < 44 ==> SteepAt(i)
  {
    assert SteepAt(33);
    assert SteepAt(34);
    assert SteepAt(35);
    assert SteepAt(36);
    assert SteepAt(37);
    assert SteepAt(38);
    assert SteepAt(39);
    assert SteepAt(40);
    assert SteepAt(41);
    assert SteepAt(42);
    assert SteepAt(43);
  }

  /** The first sixteen integers, then the next triangular numbers, then triangular numbers that
      grow steeply. */
  lemma JumpsAreTriangular()
    ensures forall i :: 0 <= i < 16 ==> JumpDistances()[i] == i
    ensures forall i :: 16 <= i < 82 ==> IsTriangular(JumpDistances()[i], i - 10)
    ensures SteepRoots()[0] == 86 && forall i :: 0 <= i < 44 ==> SteepAt(i)
  {
    LowerJumps();
    MiddleJumps();
    UpperJumps();
    TopJumps();
    hide SteepAt;
    forall i | 16 <= i < 82 ensures IsTriangular(JumpDistances()[i], i - 10) {
      HalfIsExact(i - 10);
      assert JumpDistances()[i] == (i - 10) * (i - 9) / 2;
    }
  }

  lemma {:induction false} HalfIsExact(n: nat)
    ensures n * (n + 1) % 2 == 0
  {
    if n > 0 {
      HalfIsExact(n - 1);
      assert n * (n + 1) == (n - 1) * n + 2 * n;
    }
  }
}
