/**
 The largest numbers that __check_for_overflow lets pass are primes, for each width of size_t, so the search of
 __next_prime has a prime to find. Each certificate is a base of large order, with its powers digit by digit.
 */
module PrimeLimits {
  import opened Primes
  import opened PrimeCertificates

  lemma SmallPrimes()
    ensures IsPrime(3) && IsPrime(5) && IsPrime(7) && IsPrime(13) && IsPrime(31)
    ensures IsPrime(71) && IsPrime(73) && IsPrime(89)
  {
    TrialDivision(3, 2);
    TrialDivision(5, 3);
    TrialDivision(7, 3);
    TrialDivision(13, 4);
    TrialDivision(31, 6);
    TrialDivision(71, 9);
    TrialDivision(73, 9);
    TrialDivision(89, 10);
  }

  lemma Prime181Order()
    ensures Cong(Pow(114, 15), 1, 181)
  {
    hide Pow, Cong;
    Start(181, 114);
    Double(181, 114, 1, 114, 145);
    Next(181, 114, 2, 145, 59);
    Double(181, 114, 3, 59, 42);
    Next(181, 114, 6, 42, 82);
    Double(181, 114, 7, 82, 27);
    Next(181, 114, 14, 27, 1);
  }

  lemma Prime181Power5()
    ensures Cong(Pow(114, 5), 48, 181)
  {
    hide Pow, Cong;
    Start(181, 114);
    Double(181, 114, 1, 114, 145);
    Double(181, 114, 2, 145, 29);
    Next(181, 114, 4, 29, 48);
  }

  lemma Prime181Power3()
    ensures Cong(Pow(114, 3), 59, 181)
  {
    hide Pow, Cong;
    Start(181, 114);
    Double(181, 114, 1, 114, 145);
    Next(181, 114, 2, 145, 59);
  }

  lemma Prime181()
    ensures IsPrime(181)
  {
    hide Pow, Cong, Inverts, Product, IsPrime;
    SmallPrimes();
    Prime181Order();
    Prime181Power5();
    InvertedBy(181, 114, 5, 48, 104);
    Prime181Power3();
    InvertedBy(181, 114, 3, 59, 103);
    var rs, cs := [3, 5], [104, 103];
    ProductOf2(3, 5);
    Certified(181, 114, rs, cs);
  }

  lemma Prime683Order()
    ensures Cong(Pow(347, 31), 1, 683)
  {
    hide Pow, Cong;
    Start(683, 347);
    Double(683, 347, 1, 347, 201);
    Next(683, 347, 2, 201, 81);
    Double(683, 347, 3, 81, 414);
    Next(683, 347, 6, 414, 228);
    Double(683, 347, 7, 228, 76);
    Next(683, 347, 14, 76, 418);
    Double(683, 347, 15, 418, 559);
    Next(683, 347, 30, 559, 1);
  }

  lemma Prime683()
    ensures IsPrime(683)
  {
    hide Pow, Cong, Inverts, Product, IsPrime;
    SmallPrimes();
    Prime683Order();
    Start(683, 347);
    InvertedBy(683, 347, 1, 347, 152);
    var rs, cs := [31], [152];
    ProductOf1(31);
    Certified(683, 347, rs, cs);
  }

  lemma Prime2131Order()
    ensures Cong(Pow(1247, 71), 1, 2131)
  {
    hide Pow, Cong;
    Start(2131, 1247);
    Double(2131, 1247, 1, 1247, 1510);
    Double(2131, 1247, 2, 1510, 2061);
    Double(2131, 1247, 4, 2061, 638);
    Double(2131, 1247, 8, 638, 23);
    Next(2131, 1247, 16, 23, 978);
    Double(2131, 1247, 17, 978, 1796);
    Next(2131, 1247, 34, 1796, 2062);
    Double(2131, 1247, 35, 2062, 499);
    Next(2131, 1247, 70, 499, 1);
  }

  lemma Prime2131()
    ensures IsPrime(2131)
  {
    hide Pow, Cong, Inverts, Product, IsPrime;
    SmallPrimes();
    Prime2131Order();
    Start(2131, 1247);
    InvertedBy(2131, 1247, 1, 1247, 183);
    var rs, cs := [71], [183];
    ProductOf1(71);
    Certified(2131, 1247, rs, cs);
  }

  lemma Prime15331Order()
    ensures Cong(Pow(4577, 511), 1, 15331)
  {
    hide Pow, Cong;
    Start(15331, 4577);
    Double(15331, 4577, 1, 4577, 6783);
    Next(15331, 4577, 2, 6783, 516);
    Double(15331, 4577, 3, 516, 5629);
    Next(15331, 4577, 6, 5629, 7853);
    Double(15331, 4577, 7, 7853, 8327);
    Next(15331, 4577, 14, 8327, 15144);
    Double(15331, 4577, 15, 15144, 4307);
    Next(15331, 4577, 30, 4307, 12804);
    Double(15331, 4577, 31, 12804, 8033);
    Next(15331, 4577, 62, 8033, 3303);
    Double(15331, 4577, 63, 3303, 9468);
    Next(15331, 4577, 126, 9468, 9630);
    Double(15331, 4577, 127, 9630, 15012);
    Next(15331, 4577, 254, 15012, 11713);
    Double(15331, 4577, 255, 11713, 12581);
    Next(15331, 4577, 510, 12581, 1);
  }

  lemma Prime15331Power73()
    ensures Cong(Pow(4577, 73), 5886, 15331)
  {
    hide Pow, Cong;
    Start(15331, 4577);
    Double(15331, 4577, 1, 4577, 6783);
    Double(15331, 4577, 2, 6783, 758);
    Double(15331, 4577, 4, 758, 7317);
    Next(15331, 4577, 8, 7317, 7005);
    Double(15331, 4577, 9, 7005, 10825);
    Double(15331, 4577, 18, 10825, 5792);
    Double(15331, 4577, 36, 5792, 3036);
    Next(15331, 4577, 72, 3036, 5886);
  }

  lemma Prime15331Power7()
    ensures Cong(Pow(4577, 7), 7853, 15331)
  {
    hide Pow, Cong;
    Start(15331, 4577);
    Double(15331, 4577, 1, 4577, 6783);
    Next(15331, 4577, 2, 6783, 516);
    Double(15331, 4577, 3, 516, 5629);
    Next(15331, 4577, 6, 5629, 7853);
  }

  lemma Prime15331()
    ensures IsPrime(15331)
  {
    hide Pow, Cong, Inverts, Product, IsPrime;
    SmallPrimes();
    Prime15331Order();
    Prime15331Power73();
    InvertedBy(15331, 4577, 73, 5886, 7461);
    Prime15331Power7();
    InvertedBy(15331, 4577, 7, 7853, 6453);
    var rs, cs := [7, 73], [7461, 6453];
    ProductOf2(7, 73);
    Certified(15331, 4577, rs, cs);
  }

  lemma Limit16Order()
    ensures Cong(Pow(47398, 273), 1, 0xFFF1)
  {
    hide Pow, Cong;
    Start(0xFFF1, 47398);
    Double(0xFFF1, 47398, 1, 47398, 51877);
    Double(0xFFF1, 47398, 2, 51877, 13575);
    Double(0xFFF1, 47398, 4, 13575, 35573);
    Double(0xFFF1, 47398, 8, 35573, 31256);
    Next(0xFFF1, 47398, 16, 31256, 42078);
    Double(0xFFF1, 47398, 17, 42078, 49622);
    Double(0xFFF1, 47398, 34, 49622, 63704);
    Double(0xFFF1, 47398, 68, 63704, 25439);
    Double(0xFFF1, 47398, 136, 25439, 57325);
    Next(0xFFF1, 47398, 272, 57325, 1);
  }

  lemma Limit16Power91()
    ensures Cong(Pow(47398, 91), 16673, 0xFFF1)
  {
    hide Pow, Cong;
    Start(0xFFF1, 47398);
    Double(0xFFF1, 47398, 1, 47398, 51877);
    Double(0xFFF1, 47398, 2, 51877, 13575);
    Next(0xFFF1, 47398, 4, 13575, 11630);
    Double(0xFFF1, 47398, 5, 11630, 21556);
    Next(0xFFF1, 47398, 10, 21556, 42335);
    Double(0xFFF1, 47398, 11, 42335, 56312);
    Double(0xFFF1, 47398, 22, 56312, 21507);
    Next(0xFFF1, 47398, 44, 21507, 13068);
    Double(0xFFF1, 47398, 45, 13068, 24898);
    Next(0xFFF1, 47398, 90, 24898, 16673);
  }

  lemma Limit16Power39()
    ensures Cong(Pow(47398, 39), 60413, 0xFFF1)
  {
    hide Pow, Cong;
    Start(0xFFF1, 47398);
    Double(0xFFF1, 47398, 1, 47398, 51877);
    Double(0xFFF1, 47398, 2, 51877, 13575);
    Double(0xFFF1, 47398, 4, 13575, 35573);
    Next(0xFFF1, 47398, 8, 35573, 37161);
    Double(0xFFF1, 47398, 9, 37161, 19325);
    Next(0xFFF1, 47398, 18, 19325, 48291);
    Double(0xFFF1, 47398, 19, 48291, 62770);
    Next(0xFFF1, 47398, 38, 62770, 60413);
  }

  lemma Limit16Power21()
    ensures Cong(Pow(47398, 21), 62293, 0xFFF1)
  {
    hide Pow, Cong;
    Start(0xFFF1, 47398);
    Double(0xFFF1, 47398, 1, 47398, 51877);
    Double(0xFFF1, 47398, 2, 51877, 13575);
    Next(0xFFF1, 47398, 4, 13575, 11630);
    Double(0xFFF1, 47398, 5, 11630, 21556);
    Double(0xFFF1, 47398, 10, 21556, 51725);
    Next(0xFFF1, 47398, 20, 51725, 62293);
  }

  lemma Limit16()
    ensures IsPrime(0xFFF1)
  {
    hide Pow, Cong, Inverts, Product, IsPrime;
    SmallPrimes();
    Limit16Order();
    Limit16Power91();
    InvertedBy(0xFFF1, 47398, 91, 16673, 16282);
    Limit16Power39();
    InvertedBy(0xFFF1, 47398, 39, 60413, 25521);
    Limit16Power21();
    InvertedBy(0xFFF1, 47398, 21, 62293, 48253);
    var rs, cs := [3, 7, 13], [16282, 25521, 48253];
    ProductOf3(3, 7, 13);
    Certified(0xFFF1, 47398, rs, cs);
  }

  lemma Limit24Order()
    ensures Cong(Pow(4173953, 60787), 1, 0xFFFFFD)
  {
    hide Pow, Cong;
    Start(0xFFFFFD, 4173953);
    Double(0xFFFFFD, 4173953, 1, 4173953, 6236684);
    Next(0xFFFFFD, 4173953, 2, 6236684, 1537774);
    Double(0xFFFFFD, 4173953, 3, 1537774, 702726);
    Next(0xFFFFFD, 4173953, 6, 702726, 1924301);
    Double(0xFFFFFD, 4173953, 7, 1924301, 2102945);
    Double(0xFFFFFD, 4173953, 14, 2102945, 4989503);
    Next(0xFFFFFD, 4173953, 28, 4989503, 10642560);
    Double(0xFFFFFD, 4173953, 29, 10642560, 11094542);
    Next(0xFFFFFD, 4173953, 58, 11094542, 2640612);
    Double(0xFFFFFD, 4173953, 59, 2640612, 3907975);
    Double(0xFFFFFD, 4173953, 118, 3907975, 5161151);
    Next(0xFFFFFD, 4173953, 236, 5161151, 7223152);
    Double(0xFFFFFD, 4173953, 237, 7223152, 13610000);
    Double(0xFFFFFD, 4173953, 474, 13610000, 8316965);
    Next(0xFFFFFD, 4173953, 948, 8316965, 402056);
    Double(0xFFFFFD, 4173953, 949, 402056, 579881);
    Next(0xFFFFFD, 4173953, 1898, 579881, 14628935);
    Double(0xFFFFFD, 4173953, 1899, 14628935, 5836031);
    Next(0xFFFFFD, 4173953, 3798, 5836031, 13783879);
    Double(0xFFFFFD, 4173953, 3799, 13783879, 10060776);
    Double(0xFFFFFD, 4173953, 7598, 10060776, 5992208);
    Double(0xFFFFFD, 4173953, 15196, 5992208, 15784303);
    Next(0xFFFFFD, 4173953, 30392, 15784303, 14590882);
    Double(0xFFFFFD, 4173953, 30393, 14590882, 13931305);
    Next(0xFFFFFD, 4173953, 60786, 13931305, 1);
  }

  lemma Limit24Power683()
    ensures Cong(Pow(4173953, 683), 15847013, 0xFFFFFD)
  {
    hide Pow, Cong;
    Start(0xFFFFFD, 4173953);
    Double(0xFFFFFD, 4173953, 1, 4173953, 6236684);
    Double(0xFFFFFD, 4173953, 2, 6236684, 3805508);
    Next(0xFFFFFD, 4173953, 4, 3805508, 576031);
    Double(0xFFFFFD, 4173953, 5, 576031, 8771460);
    Double(0xFFFFFD, 4173953, 10, 8771460, 6875391);
    Next(0xFFFFFD, 4173953, 20, 6875391, 1836419);
    Double(0xFFFFFD, 4173953, 21, 1836419, 13604005);
    Double(0xFFFFFD, 4173953, 42, 13604005, 1976202);
    Next(0xFFFFFD, 4173953, 84, 1976202, 7163417);
    Double(0xFFFFFD, 4173953, 85, 7163417, 11092284);
    Double(0xFFFFFD, 4173953, 170, 11092284, 2571177);
    Next(0xFFFFFD, 4173953, 340, 2571177, 8226906);
    Double(0xFFFFFD, 4173953, 341, 8226906, 3959543);
    Next(0xFFFFFD, 4173953, 682, 3959543, 15847013);
  }

  lemma Limit24Power89()
    ensures Cong(Pow(4173953, 89), 2934999, 0xFFFFFD)
  {
    hide Pow, Cong;
    Start(0xFFFFFD, 4173953);
    Double(0xFFFFFD, 4173953, 1, 4173953, 6236684);
    Double(0xFFFFFD, 4173953, 2, 6236684, 3805508);
    Next(0xFFFFFD, 4173953, 4, 3805508, 576031);
    Double(0xFFFFFD, 4173953, 5, 576031, 8771460);
    Next(0xFFFFFD, 4173953, 10, 8771460, 8142455);
    Double(0xFFFFFD, 4173953, 11, 8142455, 3850506);
    Double(0xFFFFFD, 4173953, 22, 3850506, 4229250);
    Double(0xFFFFFD, 4173953, 44, 4229250, 16461727);
    Next(0xFFFFFD, 4173953, 88, 16461727, 2934999);
  }

  lemma Limit24()
    ensures IsPrime(0xFFFFFD)
  {
    hide Pow, Cong, Inverts, Product, IsPrime;
    Prime683();
    SmallPrimes();
    Limit24Order();
    Limit24Power683();
    InvertedBy(0xFFFFFD, 4173953, 683, 15847013, 7949887);
    Limit24Power89();
    InvertedBy(0xFFFFFD, 4173953, 89, 2934999, 8149381);
    var rs, cs := [89, 683], [7949887, 8149381];
    ProductOf2(89, 683);
    Certified(0xFFFFFD, 4173953, rs, cs);
  }

  lemma Prime22605091Order()
    ensures Cong(Pow(18389778, 32761), 1, 22605091)
  {
    hide Pow, Cong;
    Start(22605091, 18389778);
    Double(22605091, 18389778, 1, 18389778, 18881964);
    Next(22605091, 18389778, 2, 18881964, 18694817);
    Double(22605091, 18389778, 3, 18694817, 967039);
    Next(22605091, 18389778, 6, 967039, 3991823);
    Double(22605091, 18389778, 7, 3991823, 5746155);
    Next(22605091, 18389778, 14, 5746155, 10446987);
    Double(22605091, 18389778, 15, 10446987, 10546524);
    Next(22605091, 18389778, 30, 10546524, 12830595);
    Double(22605091, 18389778, 31, 12830595, 15866151);
    Next(22605091, 18389778, 62, 15866151, 8572888);
    Double(22605091, 18389778, 63, 8572888, 13438432);
    Next(22605091, 18389778, 126, 13438432, 8077143);
    Double(22605091, 18389778, 127, 8077143, 2378623);
    Next(22605091, 18389778, 254, 2378623, 5894688);
    Double(22605091, 18389778, 255, 5894688, 21407058);
    Next(22605091, 18389778, 510, 21407058, 16329565);
    Double(22605091, 18389778, 511, 16329565, 21323023);
    Next(22605091, 18389778, 1022, 21323023, 5776459);
    Double(22605091, 18389778, 1023, 5776459, 13333217);
    Next(22605091, 18389778, 2046, 13333217, 10349018);
    Double(22605091, 18389778, 2047, 10349018, 20979418);
    Next(22605091, 18389778, 4094, 20979418, 9799090);
    Double(22605091, 18389778, 4095, 9799090, 10622299);
    Double(22605091, 18389778, 8190, 10622299, 14739265);
    Double(22605091, 18389778, 16380, 14739265, 22155999);
    Next(22605091, 18389778, 32760, 22155999, 1);
  }

  lemma Prime22605091Power181()
    ensures Cong(Pow(18389778, 181), 13954217, 22605091)
  {
    hide Pow, Cong;
    Start(22605091, 18389778);
    Double(22605091, 18389778, 1, 18389778, 18881964);
    Double(22605091, 18389778, 2, 18881964, 6806019);
    Next(22605091, 18389778, 4, 6806019, 22134795);
    Double(22605091, 18389778, 5, 22134795, 10117272);
    Next(22605091, 18389778, 10, 10117272, 19857376);
    Double(22605091, 18389778, 11, 19857376, 18167953);
    Double(22605091, 18389778, 22, 18167953, 18363502);
    Next(22605091, 18389778, 44, 18363502, 15500452);
    Double(22605091, 18389778, 45, 15500452, 15607508);
    Double(22605091, 18389778, 90, 15607508, 14341693);
    Next(22605091, 18389778, 180, 14341693, 13954217);
  }

  lemma Prime22605091()
    ensures IsPrime(22605091)
  {
    hide Pow, Cong, Inverts, Product, IsPrime;
    Prime181();
    Prime22605091Order();
    Prime22605091Power181();
    InvertedBy(22605091, 18389778, 181, 13954217, 19569746);
    var rs, cs := [181, 181], [19569746, 19569746];
    ProductOf2(181, 181);
    Certified(22605091, 18389778, rs, cs);
  }

  lemma Limit32Order()
    ensures Cong(Pow(1073745729, 22605091), 1, 0xFFFFFFFB)
  {
    hide Pow, Cong;
    Start(0xFFFFFFFB, 1073745729);
    Double(0xFFFFFFFB, 1073745729, 1, 1073745729, 3504919713);
    Double(0xFFFFFFFB, 1073745729, 2, 3504919713, 148041656);
    Next(0xFFFFFFFB, 1073745729, 4, 148041656, 2762101756);
    Double(0xFFFFFFFB, 1073745729, 5, 2762101756, 1474251975);
    Double(0xFFFFFFFB, 1073745729, 10, 1474251975, 2995285887);
    Next(0xFFFFFFFB, 1073745729, 20, 2995285887, 4065820878);
    Double(0xFFFFFFFB, 1073745729, 21, 4065820878, 3219286270);
    Next(0xFFFFFFFB, 1073745729, 42, 3219286270, 1820247785);
    Double(0xFFFFFFFB, 1073745729, 43, 1820247785, 3855700258);
    Double(0xFFFFFFFB, 1073745729, 86, 3855700258, 1858816020);
    Double(0xFFFFFFFB, 1073745729, 172, 1858816020, 2210652769);
    Double(0xFFFFFFFB, 1073745729, 344, 2210652769, 1091548832);
    Next(0xFFFFFFFB, 1073745729, 688, 1091548832, 3255072328);
    Double(0xFFFFFFFB, 1073745729, 689, 3255072328, 3894166791);
    Next(0xFFFFFFFB, 1073745729, 1378, 3894166791, 2036108090);
    Double(0xFFFFFFFB, 1073745729, 1379, 2036108090, 1360206462);
    Next(0xFFFFFFFB, 1073745729, 2758, 1360206462, 2579436866);
    Double(0xFFFFFFFB, 1073745729, 2759, 2579436866, 1810740027);
    Double(0xFFFFFFFB, 1073745729, 5518, 1810740027, 2386321990);
    Next(0xFFFFFFFB, 1073745729, 11036, 2386321990, 3638735613);
    Double(0xFFFFFFFB, 1073745729, 11037, 3638735613, 177569812);
    Next(0xFFFFFFFB, 1073745729, 22074, 177569812, 2142344274);
    Double(0xFFFFFFFB, 1073745729, 22075, 2142344274, 164317185);
    Double(0xFFFFFFFB, 1073745729, 44150, 164317185, 1505111656);
    Next(0xFFFFFFFB, 1073745729, 88300, 1505111656, 3827152162);
    Double(0xFFFFFFFB, 1073745729, 88301, 3827152162, 305512203);
    Double(0xFFFFFFFB, 1073745729, 176602, 305512203, 999910711);
    Double(0xFFFFFFFB, 1073745729, 353204, 999910711, 1505118024);
    Next(0xFFFFFFFB, 1073745729, 706408, 1505118024, 3852027162);
    Double(0xFFFFFFFB, 1073745729, 706409, 3852027162, 894754220);
    Double(0xFFFFFFFB, 1073745729, 1412818, 894754220, 2824842023);
    Double(0xFFFFFFFB, 1073745729, 2825636, 2824842023, 3541280234);
    Double(0xFFFFFFFB, 1073745729, 5651272, 3541280234, 779252477);
    Next(0xFFFFFFFB, 1073745729, 11302544, 779252477, 4191888076);
    Double(0xFFFFFFFB, 1073745729, 11302545, 4191888076, 688844034);
    Next(0xFFFFFFFB, 1073745729, 22605090, 688844034, 1);
  }

  lemma Limit32()
    ensures IsPrime(0xFFFFFFFB)
  {
    hide Pow, Cong, Inverts, Product, IsPrime;
    Prime22605091();
    Limit32Order();
    Start(0xFFFFFFFB, 1073745729);
    InvertedBy(0xFFFFFFFB, 1073745729, 1, 1073745729, 1771216906);
    var rs, cs := [22605091], [1771216906];
    ProductOf1(22605091);
    Certified(0xFFFFFFFB, 1073745729, rs, cs);
  }

  lemma Prime5594472617641Order()
    ensures Cong(Pow(552689412041, 32670361), 1, 5594472617641)
  {
    hide Pow, Cong;
    Start(5594472617641, 552689412041);
    Double(5594472617641, 552689412041, 1, 552689412041, 1367522132537);
    Next(5594472617641, 552689412041, 2, 1367522132537, 4547743987999);
    Double(5594472617641, 552689412041, 3, 4547743987999, 2945993898498);
    Next(5594472617641, 552689412041, 6, 2945993898498, 1727276639574);
    Double(5594472617641, 552689412041, 7, 1727276639574, 1052288259049);
    Next(5594472617641, 552689412041, 14, 1052288259049, 772046452934);
    Double(5594472617641, 552689412041, 15, 772046452934, 3706074649702);
    Next(5594472617641, 552689412041, 30, 3706074649702, 4691607620648);
    Double(5594472617641, 552689412041, 31, 4691607620648, 3560904544263);
    Double(5594472617641, 552689412041, 62, 3560904544263, 4508011871779);
    Double(5594472617641, 552689412041, 124, 4508011871779, 493570506927);
    Next(5594472617641, 552689412041, 248, 493570506927, 1258910836664);
    Double(5594472617641, 552689412041, 249, 1258910836664, 1975527417319);
    Double(5594472617641, 552689412041, 498, 1975527417319, 3119016703877);
    Next(5594472617641, 552689412041, 996, 3119016703877, 3699452724355);
    Double(5594472617641, 552689412041, 997, 3699452724355, 403582499579);
    Double(5594472617641, 552689412041, 1994, 403582499579, 721603854030);
    Double(5594472617641, 552689412041, 3988, 721603854030, 1927498899996);
    Double(5594472617641, 552689412041, 7976, 1927498899996, 2891026069467);
    Double(5594472617641, 552689412041, 15952, 2891026069467, 3556407971423);
    Double(5594472617641, 552689412041, 31904, 3556407971423, 4355074559959);
    Next(5594472617641, 552689412041, 63808, 4355074559959, 222490188437);
    Double(5594472617641, 552689412041, 63809, 222490188437, 1804947334860);
    Double(5594472617641, 552689412041, 127618, 1804947334860, 5053316977152);
    Next(5594472617641, 552689412041, 255236, 5053316977152, 883484856093);
    Double(5594472617641, 552689412041, 255237, 883484856093, 3705595166059);
    Double(5594472617641, 552689412041, 510474, 3705595166059, 843176810567);
    Double(5594472617641, 552689412041, 1020948, 843176810567, 3913095632302);
    Next(5594472617641, 552689412041, 2041896, 3913095632302, 2608420594505);
    Double(5594472617641, 552689412041, 2041897, 2608420594505, 5204687802380);
    Next(5594472617641, 552689412041, 4083794, 5204687802380, 479582573363);
    Double(5594472617641, 552689412041, 4083795, 479582573363, 795729808851);
    Double(5594472617641, 552689412041, 8167590, 795729808851, 2680754808837);
    Double(5594472617641, 552689412041, 16335180, 2680754808837, 2850036154072);
    Next(5594472617641, 552689412041, 32670360, 2850036154072, 1);
  }

  lemma Prime5594472617641Power15331()
    ensures Cong(Pow(552689412041, 15331), 1346892610175, 5594472617641)
  {
    hide Pow, Cong;
    Start(5594472617641, 552689412041);
    Double(5594472617641, 552689412041, 1, 552689412041, 1367522132537);
    Next(5594472617641, 552689412041, 2, 1367522132537, 4547743987999);
    Double(5594472617641, 552689412041, 3, 4547743987999, 2945993898498);
    Next(5594472617641, 552689412041, 6, 2945993898498, 1727276639574);
    Double(5594472617641, 552689412041, 7, 1727276639574, 1052288259049);
    Double(5594472617641, 552689412041, 14, 1052288259049, 3805792130117);
    Next(5594472617641, 552689412041, 28, 3805792130117, 3214652403668);
    Double(5594472617641, 552689412041, 29, 3214652403668, 2280140260691);
    Next(5594472617641, 552689412041, 58, 2280140260691, 5356572467510);
    Double(5594472617641, 552689412041, 59, 5356572467510, 1591219757465);
    Next(5594472617641, 552689412041, 118, 1591219757465, 3866302258321);
    Double(5594472617641, 552689412041, 119, 3866302258321, 5180071423700);
    Next(5594472617641, 552689412041, 238, 5180071423700, 2357377625368);
    Double(5594472617641, 552689412041, 239, 2357377625368, 5192614906273);
    Next(5594472617641, 552689412041, 478, 5192614906273, 1780912999998);
    Double(5594472617641, 552689412041, 479, 1780912999998, 5092139528736);
    Double(5594472617641, 552689412041, 958, 5092139528736, 3189632930929);
    Double(5594472617641, 552689412041, 1916, 3189632930929, 4128103346875);
    Double(5594472617641, 552689412041, 3832, 4128103346875, 3119316699055);
    Next(5594472617641, 552689412041, 7664, 3119316699055, 5237160311195);
    Double(5594472617641, 552689412041, 7665, 5237160311195, 1412212798087);
    Next(5594472617641, 552689412041, 15330, 1412212798087, 1346892610175);
  }

  lemma Prime5594472617641Power2131()
    ensures Cong(Pow(552689412041, 2131), 1852426820963, 5594472617641)
  {
    hide Pow, Cong;
    Start(5594472617641, 552689412041);
    Double(5594472617641, 552689412041, 1, 552689412041, 1367522132537);
    Double(5594472617641, 552689412041, 2, 1367522132537, 4116572152014);
    Double(5594472617641, 552689412041, 4, 4116572152014, 948608969768);
    Double(5594472617641, 552689412041, 8, 948608969768, 950901804214);
    Double(5594472617641, 552689412041, 16, 950901804214, 4446419187521);
    Next(5594472617641, 552689412041, 32, 4446419187521, 4724465677733);
    Double(5594472617641, 552689412041, 33, 4724465677733, 5051692401197);
    Double(5594472617641, 552689412041, 66, 5051692401197, 2554286273945);
    Next(5594472617641, 552689412041, 132, 2554286273945, 5153863569035);
    Double(5594472617641, 552689412041, 133, 5153863569035, 4874838264003);
    Double(5594472617641, 552689412041, 266, 4874838264003, 1549243108211);
    Double(5594472617641, 552689412041, 532, 1549243108211, 5366315547723);
    Next(5594472617641, 552689412041, 1064, 5366315547723, 5025837931916);
    Double(5594472617641, 552689412041, 1065, 5025837931916, 2847441909852);
    Next(5594472617641, 552689412041, 2130, 2847441909852, 1852426820963);
  }

  lemma Prime5594472617641()
    ensures IsPrime(5594472617641)
  {
    hide Pow, Cong, Inverts, Product, IsPrime;
    Prime2131();
    Prime15331();
    Prime5594472617641Order();
    Prime5594472617641Power15331();
    InvertedBy(5594472617641, 552689412041, 15331, 1346892610175, 1933328135809);
    Prime5594472617641Power2131();
    InvertedBy(5594472617641, 552689412041, 2131, 1852426820963, 3161697676777);
    var rs, cs := [2131, 15331], [1933328135809, 3161697676777];
    ProductOf2(2131, 15331);
    Certified(5594472617641, 552689412041, rs, cs);
  }

  lemma Limit64OrderBegun()
    ensures Cong(Pow(11493017446059487016, 2667652), 3719908085082490393, 0xFFFF_FFFF_FFFF_FFC5)
  {
    hide Pow, Cong;
    Start(0xFFFF_FFFF_FFFF_FFC5, 11493017446059487016);
    Double(0xFFFF_FFFF_FFFF_FFC5, 11493017446059487016, 1, 11493017446059487016, 707738172700249187);
    Double(0xFFFF_FFFF_FFFF_FFC5, 11493017446059487016, 2, 707738172700249187, 4218391128862535611);
    Next(0xFFFF_FFFF_FFFF_FFC5, 11493017446059487016, 4, 4218391128862535611, 12603256085745122044);
    Double(0xFFFF_FFFF_FFFF_FFC5, 11493017446059487016, 5, 12603256085745122044, 3070276465859542178);
    Double(0xFFFF_FFFF_FFFF_FFC5, 11493017446059487016, 10, 3070276465859542178, 3445201699927199592);
    Double(0xFFFF_FFFF_FFFF_FFC5, 11493017446059487016, 20, 3445201699927199592, 5495123995007144820);
    Double(0xFFFF_FFFF_FFFF_FFC5, 11493017446059487016, 40, 5495123995007144820, 14240951956709542307);
    Next(0xFFFF_FFFF_FFFF_FFC5, 11493017446059487016, 80, 14240951956709542307, 7267389047912579589);
    Double(0xFFFF_FFFF_FFFF_FFC5, 11493017446059487016, 81, 7267389047912579589, 2545514892988531501);
    Double(0xFFFF_FFFF_FFFF_FFC5, 11493017446059487016, 162, 2545514892988531501, 6322864115774317151);
    Next(0xFFFF_FFFF_FFFF_FFC5, 11493017446059487016, 324, 6322864115774317151, 6769489354311130466);
    Double(0xFFFF_FFFF_FFFF_FFC5, 11493017446059487016, 325, 6769489354311130466, 18418489063413399753);
    Next(0xFFFF_FFFF_FFFF_FFC5, 11493017446059487016, 650, 18418489063413399753, 3742076373895185459);
    Double(0xFFFF_FFFF_FFFF_FFC5, 11493017446059487016, 651, 3742076373895185459, 16893664101364135094);
    Double(0xFFFF_FFFF_FFFF_FFC5, 11493017446059487016, 1302, 16893664101364135094, 14060724226836156062);
    Next(0xFFFF_FFFF_FFFF_FFC5, 11493017446059487016, 2604, 14060724226836156062, 12570569503449865477);
    Double(0xFFFF_FFFF_FFFF_FFC5, 11493017446059487016, 2605, 12570569503449865477, 10751228489876979079);
    Double(0xFFFF_FFFF_FFFF_FFC5, 11493017446059487016, 5210, 10751228489876979079, 18149736518505526008);
    Double(0xFFFF_FFFF_FFFF_FFC5, 11493017446059487016, 10420, 18149736518505526008, 15243608239685400147);
    Next(0xFFFF_FFFF_FFFF_FFC5, 11493017446059487016, 20840, 15243608239685400147, 6969370660485990036);
    Double(0xFFFF_FFFF_FFFF_FFC5, 11493017446059487016, 20841, 6969370660485990036, 15060727138206098671);
    Double(0xFFFF_FFFF_FFFF_FFC5, 11493017446059487016, 41682, 15060727138206098671, 13582489635803617490);
    Double(0xFFFF_FFFF_FFFF_FFC5, 11493017446059487016, 83364, 13582489635803617490, 14122594575804140753);
    Double(0xFFFF_FFFF_FFFF_FFC5, 11493017446059487016, 166728, 14122594575804140753, 17095689938516471399);
    Double(0xFFFF_FFFF_FFFF_FFC5, 11493017446059487016, 333456, 17095689938516471399, 2502823356314345788);
    Next(0xFFFF_FFFF_FFFF_FFC5, 11493017446059487016, 666912, 2502823356314345788, 15896713296576974865);
    Double(0xFFFF_FFFF_FFFF_FFC5, 11493017446059487016, 666913, 15896713296576974865, 8258455027259507795);
    Double(0xFFFF_FFFF_FFFF_FFC5, 11493017446059487016, 1333826, 8258455027259507795, 3719908085082490393);
  }

  lemma Limit64Order()
    ensures Cong(Pow(11493017446059487016, 5594472617641), 1, 0xFFFF_FFFF_FFFF_FFC5)
  {
    hide Pow, Cong;
    Limit64OrderBegun();
    Double(0xFFFF_FFFF_FFFF_FFC5, 11493017446059487016, 2667652, 3719908085082490393, 5996784432043270228);
    Double(0xFFFF_FFFF_FFFF_FFC5, 11493017446059487016, 5335304, 5996784432043270228, 11038613309972981515);
    Next(0xFFFF_FFFF_FFFF_FFC5, 11493017446059487016, 10670608, 11038613309972981515, 4584556924887289223);
    Double(0xFFFF_FFFF_FFFF_FFC5, 11493017446059487016, 10670609, 4584556924887289223, 15760358738764796357);
    Next(0xFFFF_FFFF_FFFF_FFC5, 11493017446059487016, 21341218, 15760358738764796357, 14264922066832602577);
    Double(0xFFFF_FFFF_FFFF_FFC5, 11493017446059487016, 21341219, 14264922066832602577, 11038291374004706135);
    Double(0xFFFF_FFFF_FFFF_FFC5, 11493017446059487016, 42682438, 11038291374004706135, 17391818108843243567);
    Next(0xFFFF_FFFF_FFFF_FFC5, 11493017446059487016, 85364876, 17391818108843243567, 9424313153928960846);
    Double(0xFFFF_FFFF_FFFF_FFC5, 11493017446059487016, 85364877, 9424313153928960846, 12727297881150956231);
    Next(0xFFFF_FFFF_FFFF_FFC5, 11493017446059487016, 170729754, 12727297881150956231, 11643026781013480449);
    Double(0xFFFF_FFFF_FFFF_FFC5, 11493017446059487016, 170729755, 11643026781013480449, 11958245662470757497);
    Double(0xFFFF_FFFF_FFFF_FFC5, 11493017446059487016, 341459510, 11958245662470757497, 2803077620483620943);
    Double(0xFFFF_FFFF_FFFF_FFC5, 11493017446059487016, 682919020, 2803077620483620943, 2287400308388110268);
    Next(0xFFFF_FFFF_FFFF_FFC5, 11493017446059487016, 1365838040, 2287400308388110268, 1611602363253227516);
    Double(0xFFFF_FFFF_FFFF_FFC5, 11493017446059487016, 1365838041, 1611602363253227516, 1067009509658116802);
    Double(0xFFFF_FFFF_FFFF_FFC5, 11493017446059487016, 2731676082, 1067009509658116802, 3727580736198351133);
    Next(0xFFFF_FFFF_FFFF_FFC5, 11493017446059487016, 5463352164, 3727580736198351133, 1006968241440882785);
    Double(0xFFFF_FFFF_FFFF_FFC5, 11493017446059487016, 5463352165, 1006968241440882785, 2982683727977224206);
    Next(0xFFFF_FFFF_FFFF_FFC5, 11493017446059487016, 10926704330, 2982683727977224206, 3462094952625689253);
    Double(0xFFFF_FFFF_FFFF_FFC5, 11493017446059487016, 10926704331, 3462094952625689253, 13006730677682223898);
    Double(0xFFFF_FFFF_FFFF_FFC5, 11493017446059487016, 21853408662, 13006730677682223898, 2482068632392844887);
    Next(0xFFFF_FFFF_FFFF_FFC5, 11493017446059487016, 43706817324, 2482068632392844887, 8517951063125016168);
    Double(0xFFFF_FFFF_FFFF_FFC5, 11493017446059487016, 43706817325, 8517951063125016168, 3960158840834210521);
    Double(0xFFFF_FFFF_FFFF_FFC5, 11493017446059487016, 87413634650, 3960158840834210521, 2568824574167429681);
    Next(0xFFFF_FFFF_FFFF_FFC5, 11493017446059487016, 174827269300, 2568824574167429681, 12596247304770439012);
    Double(0xFFFF_FFFF_FFFF_FFC5, 11493017446059487016, 174827269301, 12596247304770439012, 7694063513458488491);
    Double(0xFFFF_FFFF_FFFF_FFC5, 11493017446059487016, 349654538602, 7694063513458488491, 1213791608083619123);
    Next(0xFFFF_FFFF_FFFF_FFC5, 11493017446059487016, 699309077204, 1213791608083619123, 387603828884620487);
    Double(0xFFFF_FFFF_FFFF_FFC5, 11493017446059487016, 699309077205, 387603828884620487, 2519434279401211148);
    Double(0xFFFF_FFFF_FFFF_FFC5, 11493017446059487016, 1398618154410, 2519434279401211148, 12966300365218243182);
    Double(0xFFFF_FFFF_FFFF_FFC5, 11493017446059487016, 2797236308820, 12966300365218243182, 8244393616749315422);
    Next(0xFFFF_FFFF_FFFF_FFC5, 11493017446059487016, 5594472617640, 8244393616749315422, 1);
  }

  lemma Limit64()
    ensures IsPrime(0xFFFF_FFFF_FFFF_FFC5)
  {
    hide Pow, Cong, Inverts, Product, IsPrime;
    Prime5594472617641();
    Limit64Order();
    Start(0xFFFF_FFFF_FFFF_FFC5, 11493017446059487016);
    InvertedBy(0xFFFF_FFFF_FFFF_FFC5, 11493017446059487016, 1, 11493017446059487016, 1898613474652435203);
    var rs, cs := [5594472617641], [1898613474652435203];
    ProductOf1(5594472617641);
    Certified(0xFFFF_FFFF_FFFF_FFC5, 11493017446059487016, rs, cs);
  }

  lemma ProductOf1(a: nat)
    ensures Product([a]) == a
  {
    assert Product([]) == 1;
  }

  lemma ProductOf2(a: nat, b: nat)
    ensures Product([a, b]) == a * b
  {
    ProductOf1(a);
    assert [a, b][..1] == [a];
  }

  lemma ProductOf3(a: nat, b: nat, c: nat)
    ensures Product([a, b, c]) == a * b * c
  {
    ProductOf2(a, b);
    assert [a, b, c][..2] == [a, b];
  }
}
