/** Discrete logarithms to base 33 modulo 2^32, each one checked where it is listed. */
module HashLogs {
  const M36: int := 0x10_0000_0000

  /** The power of two in p, for a p not divisible by 16. */
  function TwoPart(p: nat): nat {
    if p % 2 == 1 then 1 else if p / 2 % 2 == 1 then 2 else if p / 2 / 2 % 2 == 1 then 4 else 8
  }

  /** 720 times the first seven terms of the binomial sum of (1 + 32)^n. */
  function Horner(n: nat): int {
    720 + n * (23040 + (n - 1) * (368640 + (n - 2) * (3932160 + (n - 3) * (31457280
    + (n - 4) * (201326592 + (n - 5) * 1073741824)))))
  }

  /** The k-th power of 33 takes p to p - 256, and k is beyond the length of any block. The
      sum is written out once more, so that the solver can compute it for given numbers. */
  predicate Certified(p: nat, k: nat) {
    && 0x1_0000 <= k && (k + 0x1_0000) * TwoPart(p) < 0x800_0000
    && ((720 + k * (23040 + (k - 1) * (368640 + (k - 2) * (3932160 + (k - 3) * (31457280
       + (k - 4) * (201326592 + (k - 5) * 1073741824)))))) * p + 720 * (256 - p)) % 0x10_0000_0000 == 0
  }

  /** The sum in it is the one above. */
  lemma CertifiedHorner(p: nat, k: nat)
    ensures Certified(p, k) <==>
            && 0x1_0000 <= k && (k + 0x1_0000) * TwoPart(p) < 0x800_0000
            && (Horner(k) * p + 720 * (256 - p)) % M36 == 0
  {
  }

  lemma Logs0(p: nat) returns (k: nat)
    requires 1 <= p < 4
    ensures Certified(p, k)
  {
    assert Certified(1, 93033336) && Certified(2, 62642876);
    assert Certified(3, 42957096);
    k :| Certified(p, k);
  }

  lemma Logs4(p: nat) returns (k: nat)
    requires 4 <= p < 8
    ensures Certified(p, k)
  {
    assert Certified(4, 28266910) && Certified(5, 98846488);
    assert Certified(6, 16352660) && Certified(7, 54368968);
    k :| Certified(p, k);
  }

  lemma Logs8(p: nat) returns (k: nat)
    requires 8 <= p < 12
    ensures Certified(p, k)
  {
    assert Certified(8, 10165727) && Certified(9, 65045944);
    assert Certified(10, 31644812) && Certified(11, 4650344);
    k :| Certified(p, k);
  }

  lemma Logs12(p: nat) returns (k: nat)
    requires 12 <= p < 16
    ensures Certified(p, k)
  {
    assert Certified(12, 24565002) && Certified(13, 94288728);
    assert Certified(14, 38841956) && Certified(15, 112391432);
    k :| Certified(p, k);
  }

  lemma Logs16(p: nat) returns (k: nat)
    requires 17 <= p < 20
    ensures Certified(p, k)
  {
    assert Certified(17, 60986360) && Certified(18, 1180636);
    assert Certified(19, 119719336);
    k :| Certified(p, k);
  }

  lemma Logs20(p: nat) returns (k: nat)
    requires 20 <= p < 24
    ensures Certified(p, k)
  {
    assert Certified(20, 6225030) && Certified(21, 114293656);
    assert Certified(22, 10605492) && Certified(23, 89936712);
    k :| Certified(p, k);
  }

  lemma Logs24(p: nat) returns (k: nat)
    requires 24 <= p < 28
    ensures Certified(p, k)
  {
    assert Certified(24, 10896149) && Certified(25, 94248504);
    assert Certified(26, 18253484) && Certified(27, 71125480);
    k :| Certified(p, k);
  }

  lemma Logs28(p: nat) returns (k: nat)
    requires 28 <= p < 32
    ensures Certified(p, k)
  {
    assert Certified(28, 30404466) && Certified(29, 132278232);
    assert Certified(30, 34777988) && Certified(31, 91624840);
    k :| Certified(p, k);
  }

  lemma Logs32(p: nat) returns (k: nat)
    requires 33 <= p < 36
    ensures Certified(p, k)
  {
    assert Certified(33, 76776568) && Certified(34, 15219452);
    assert Certified(35, 7135784);
    k :| Certified(p, k);
  }

  lemma Logs36(p: nat) returns (k: nat)
    requires 36 <= p < 40
    ensures Certified(p, k)
  {
    assert Certified(36, 15225390) && Certified(37, 14966808);
    assert Certified(38, 38652884) && Certified(39, 128490440);
    k :| Certified(p, k);
  }

  lemma Logs40(p: nat) returns (k: nat)
    requires 40 <= p < 44
    ensures Certified(p, k)
  {
    assert Certified(40, 1551827) && Certified(41, 68626104);
    assert Certified(42, 65476300) && Certified(43, 2354792);
    k :| Certified(p, k);
  }

  lemma Logs44(p: nat) returns (k: nat)
    requires 44 <= p < 48
    ensures Certified(p, k)
  {
    assert Certified(44, 15802394) && Certified(45, 124273752);
    assert Certified(46, 535204) && Certified(47, 31999496);
    k :| Certified(p, k);
  }

  lemma Logs48(p: nat) returns (k: nat)
    requires 49 <= p < 52
    ensures Certified(p, k)
  {
    assert Certified(49, 91317496) && Certified(50, 11841564);
    assert Certified(51, 89181864);
    k :| Certified(p, k);
  }

  lemma Logs52(p: nat) returns (k: nat)
    requires 52 <= p < 56
    ensures Certified(p, k)
  {
    assert Certified(52, 93590) && Certified(53, 6583448);
    assert Certified(54, 62561780) && Certified(55, 72709192);
    k :| Certified(p, k);
  }

  lemma Logs56(p: nat) returns (k: nat)
    requires 56 <= p < 60
    ensures Certified(p, k)
  {
    assert Certified(56, 6414793) && Certified(57, 41852728);
    assert Certified(58, 5881068) && Certified(59, 54387432);
    k :| Certified(p, k);
  }

  lemma Logs60(p: nat) returns (k: nat)
    requires 60 <= p < 64
    ensures Certified(p, k)
  {
    assert Certified(60, 3523074) && Certified(61, 1265880);
    assert Certified(62, 54483908) && Certified(63, 1869448);
    k :| Certified(p, k);
  }

  lemma Logs64(p: nat) returns (k: nat)
    requires 65 <= p < 68
    ensures Certified(p, k)
  {
    assert Certified(65, 110048632) && Certified(66, 40342332);
    assert Certified(67, 74550056);
    k :| Certified(p, k);
  }

  lemma Logs68(p: nat) returns (k: nat)
    requires 68 <= p < 72
    ensures Certified(p, k)
  {
    assert Certified(68, 15972798) && Certified(69, 131283224);
    assert Certified(70, 227860) && Certified(71, 5627080);
    k :| Certified(p, k);
  }

  lemma Logs72(p: nat) returns (k: nat)
    requires 72 <= p < 76
    ensures Certified(p, k)
  {
    assert Certified(72, 9402663) && Certified(73, 88573880);
    assert Certified(74, 12953868) && Certified(75, 42870632);
    k :| Certified(p, k);
  }

  lemma Logs76(p: nat) returns (k: nat)
    requires 76 <= p < 80
    ensures Certified(p, k)
  {
    assert Certified(76, 27893802) && Certified(77, 33983832);
    assert Certified(78, 58486500) && Certified(79, 82171656);
    k :| Certified(p, k);
  }

  lemma Logs80(p: nat) returns (k: nat)
    requires 81 <= p < 84
    ensures Certified(p, k)
  {
    assert Certified(81, 125826552) && Certified(82, 14357596);
    assert Certified(83, 3282856);
    k :| Certified(p, k);
  }

  lemma Logs84(p: nat) returns (k: nat)
    requires 84 <= p < 88
    ensures Certified(p, k)
  {
    assert Certified(84, 4895142) && Certified(85, 66301336);
    assert Certified(86, 59871284) && Certified(87, 123524424);
    k :| Certified(p, k);
  }

  lemma Logs88(p: nat) returns (k: nat)
    requires 88 <= p < 92
    ensures Certified(p, k)
  {
    assert Certified(88, 11489693) && Certified(89, 103079992);
    assert Certified(90, 29625132) && Certified(91, 81247208);
    k :| Certified(p, k);
  }

  lemma Logs92(p: nat) returns (k: nat)
    requires 92 <= p < 96
    ensures Certified(p, k)
  {
    assert Certified(92, 3913106) && Certified(93, 94697944);
    assert Certified(94, 44667908) && Certified(95, 30881672);
    k :| Certified(p, k);
  }

  lemma Logs96(p: nat) returns (k: nat)
    requires 97 <= p < 100
    ensures Certified(p, k)
  {
    assert Certified(97, 51816056) && Certified(98, 21193596);
    assert Certified(99, 45446184);
    k :| Certified(p, k);
  }

  lemma Logs100(p: nat) returns (k: nat)
    requires 100 <= p < 104
    ensures Certified(p, k)
  {
    assert Certified(100, 9478222) && Certified(101, 130601496);
    assert Certified(102, 17567828) && Certified(103, 131947976);
    k :| Certified(p, k);
  }

  lemma Logs104(p: nat) returns (k: nat)
    requires 104 <= p < 108
    ensures Certified(p, k)
  {
    assert Certified(104, 14511451) && Certified(105, 633016);
    assert Certified(106, 52433740) && Certified(107, 110993512);
    k :| Certified(p, k);
  }

  lemma Logs108(p: nat) returns (k: nat)
    requires 108 <= p < 112
    ensures Certified(p, k)
  {
    assert Certified(108, 21687610) && Certified(109, 126981720);
    assert Certified(110, 54983460) && Certified(111, 21211144);
    k :| Certified(p, k);
  }

  lemma Logs112(p: nat) returns (k: nat)
    requires 113 <= p < 116
    ensures Certified(p, k)
  {
    assert Certified(113, 57034488) && Certified(114, 10399900);
    assert Certified(115, 31367336);
    k :| Certified(p, k);
  }

  lemma Logs116(p: nat) returns (k: nat)
    requires 116 <= p < 120
    ensures Certified(p, k)
  {
    assert Certified(116, 15818934) && Certified(117, 9807512);
    assert Certified(118, 55061108) && Certified(119, 118126152);
    k :| Certified(p, k);
  }

  lemma Logs120(p: nat) returns (k: nat)
    requires 120 <= p < 124
    ensures Certified(p, k)
  {
    assert Certified(120, 8019985) && Certified(121, 53010744);
    assert Certified(122, 63369580) && Certified(123, 102946024);
    k :| Certified(p, k);
  }

  lemma Logs124(p: nat) returns (k: nat)
    requires 124 <= p < 128
    ensures Certified(p, k)
  {
    assert Certified(124, 23388706) && Certified(125, 78602968);
    assert Certified(126, 64672836) && Certified(127, 37628040);
    k :| Certified(p, k);
  }

  /** Every p below 128 that 16 does not divide has a logarithm beyond the length of any block. */
  lemma Logarithm(p: nat) returns (k: nat)
    requires 0 < p < 128 && p % 16 != 0
    ensures Certified(p, k)
  {
    match p / 4
    case 0 => k := Logs0(p);
    case 1 => k := Logs4(p);
    case 2 => k := Logs8(p);
    case 3 => k := Logs12(p);
    case 4 => k := Logs16(p);
    case 5 => k := Logs20(p);
    case 6 => k := Logs24(p);
    case 7 => k := Logs28(p);
    case 8 => k := Logs32(p);
    case 9 => k := Logs36(p);
    case 10 => k := Logs40(p);
    case 11 => k := Logs44(p);
    case 12 => k := Logs48(p);
    case 13 => k := Logs52(p);
    case 14 => k := Logs56(p);
    case 15 => k := Logs60(p);
    case 16 => k := Logs64(p);
    case 17 => k := Logs68(p);
    case 18 => k := Logs72(p);
    case 19 => k := Logs76(p);
    case 20 => k := Logs80(p);
    case 21 => k := Logs84(p);
    case 22 => k := Logs88(p);
    case 23 => k := Logs92(p);
    case 24 => k := Logs96(p);
    case 25 => k := Logs100(p);
    case 26 => k := Logs104(p);
    case 27 => k := Logs108(p);
    case 28 => k := Logs112(p);
    case 29 => k := Logs116(p);
    case 30 => k := Logs120(p);
    case _ => k := Logs124(p);
  }
}
