/** The additive constants of section 3.4 of RFC 1321: the integer part of 2^32 times the sine of i + 1 radians, without
    its sign. */
module Md5Sine {
  import opened Md5Spec

  // ----- sine and cosine of whole radians -----

  /** 1 / n! */
  function Term(n: nat): real {
    if n == 0 then 1.0 else Term(n - 1) / n as real
  }

  /** The first k terms of the series of the sine of 1. */
  function SineSum(k: nat): real {
    if k == 0 then 0.0 else SineSum(k - 1) + if k % 2 == 1 then Term(2 * k - 1) else -Term(2 * k - 1)
  }

  /** And of its cosine. */
  function CosineSum(k: nat): real {
    if k == 0 then 0.0 else CosineSum(k - 1) + if k % 2 == 1 then Term(2 * k - 2) else -Term(2 * k - 2)
  }

  /** A value that no even sum exceeds and no odd sum falls below. */
  ghost predicate Between(sum: nat -> real, x: real) {
    forall k: nat :: if k % 2 == 0 then sum(k) <= x else x <= sum(k)
  }

  /** Sine and cosine of one radian lie between the sums of their series, and those of the other whole numbers follow by
      the addition theorem. */
  ghost predicate Trigonometric(sine: nat -> real, cosine: nat -> real) {
    && Between(SineSum, sine(1)) && Between(CosineSum, cosine(1))
    && sine(0) == 0.0 && cosine(0) == 1.0
    && (forall n: nat :: sine(n + 1) == sine(n) * cosine(1) + cosine(n) * sine(1))
    && (forall n: nat :: cosine(n + 1) == cosine(n) * cosine(1) - sine(n) * sine(1))
  }

  function Abs(x: real): real {
    if x < 0.0 then -x else x
  }

  // ----- approximations -----

  /** 10^24 */
  const SCALE: int := 1_000_000_000_000_000_000_000_000
  const SINE1: int := 841_470_984_807_896_506_652_502
  const COSINE1: int := 540_302_305_868_139_717_400_937
  const UNIT: real := SCALE as real

  /** Sine and cosine, 10^24 times and rounded. */
  datatype Row = Row(sine: int, cosine: int)

  /** Those of n stand at place n % 8 of line n / 8. */
  const ROWS: seq<seq<Row>> := [
    [
      Row(0, 1000000000000000000000000),
      Row(841470984807896506652502, 540302305868139717400937),
      Row(909297426825681695396020, -416146836547142386997568),
      Row(141120008059867222100745, -989992496600445457271573),
      Row(-756802495307928251372639, -653643620863611914639168),
      Row(-958924274663138468893154, 283662185463226264466639),
      Row(-279415498198925872811555, 960170286650366020545652),
      Row(656986598718789090396999, 753902254343304638141198)
    ],
    [
      Row(989358246623381777808124, -145500033808613525868841),
      Row(412118485241756569756273, -911130261884676988368295),
      Row(-544021110889369813404748, -839071529076452452258864),
      Row(-999990206550703457051565, 4425697988050785748355),
      Row(-536572918000434971665374, 843853958732492104653955),
      Row(420167036826640921868955, 907446781450196213852686),
      Row(990607355694870307875355, 136737218207833594248929),
      Row(650287840157116865829740, -759687912858821273848146)
    ],
    [
      Row(-287903316665065294784456, -957659480323384641899637),
      Row(-961397491879556857261637, -275163338051596922220343),
      Row(-750987246771676103750156, 660316708244080144816100),
      Row(149877209662952329754239, 988704618186669252898353),
      Row(912945250727627654376100, 408082061813391986062268),
      Row(836655638536056031866481, -547729260224268421384271),
      Row(-8851309290403875921690, -999960826394637126454175),
      Row(-846220404175170635241326, -532833020333397555215758)
    ],
    [
      Row(-905578362006623845135793, 424179007336996975937051),
      Row(-132351750097773028902005, 991202811863473598083295),
      Row(762558450479602737515823, 646919322328640342721384),
      Row(956375928404503013432341, -292138808733836193371405),
      Row(270905788307869019986343, -962605866313566601975453),
      Row(-663633884212967502151173, -748057529689000351765192),
      Row(-988031624092861789987749, 154251449887584050718662),
      Row(-404037645323065006048771, 914742357804531278962436)
    ],
    [
      Row(551426681241690550661558, 834223360506510272215526),
      Row(999911860107267145728084, -13276747223059478915220),
      Row(529082686120023820832487, -848570274784605186599972),
      Row(-428182669496151004406753, -903692205091506759847305),
      Row(-991778853443115736835289, -127963689627404681028328),
      Row(-643538133356999460685670, 765414051945343356491081),
      Row(296368578709385317392297, 955073644047294857586536),
      Row(963795386284087753260665, 266642932359937251526826)
    ],
    [
      Row(745113160479348786987709, -666938061652261844384093),
      Row(-158622668804708987103317, -987339277523826458228825),
      Row(-916521547915633785898989, -399985314988351293954707),
      Row(-831774742628598288209578, 555113301520625677044879),
      Row(17701925105413577807954, 999843308647691220069009),
      Row(850903524534118424862380, 525321988817729696047464),
      Row(901788347648809185033293, -432177944884778294952777),
      Row(123573122745224004061529, -992335469150928718279752)
    ],
    [
      Row(-768254661323666799044966, -640144339469199731312941),
      Row(-953752652759471818360424, 300592543743637083687026),
      Row(-262374853703928785914394, 964966028492113274068957),
      Row(670229175843374734494345, 742154196813782539467377),
      Row(986627592040485296587569, -162990780795705481003330),
      Row(395925150181834181503386, -918282786212118891199726),
      Row(-558789048851616245817871, -829309832863150147727850),
      Row(-999755173358619836598632, 22126756261955734563564)
    ],
    [
      Row(-521551002086911880187410, 853220107722584113969681),
      Row(436164755247824959080535, 899866826969193786503000),
      Row(992872648084537118165088, 119180135448819285435844),
      Row(636738007139137880771233, -771080222975845229387435),
      Row(-304810621102216705625649, -952412980415156292693817),
      Row(-966117770008392947018288, -258101635938267445701207),
      Row(-739180696649222867276017, 673507162323586252887833),
      Row(167355700302806921527838, 985896581582549697438636)
    ],
    [
      Row(920026038196790683351537, 391857230429550005161710)
    ]
  ]

  lemma RowsShape()
    ensures |ROWS| == 9 && (forall l :: 0 <= l < 8 ==> |ROWS[l]| == 8) && |ROWS[8]| == 1
  {
  }

  function RowAt(n: nat): Row
    requires n <= 64
  {
    RowsShape();
    ROWS[n / 8][n % 8]
  }

  function Size(x: int): int {
    if x < 0 then -x else x
  }

  /** The row t is one radian further on than r. */
  predicate Follows(r: Row, t: Row) {
    && -SCALE <= r.sine <= SCALE && -SCALE <= r.cosine <= SCALE
    && -2 * SCALE <= r.sine * COSINE1 + r.cosine * SINE1 - SCALE * t.sine <= 2 * SCALE
    && -2 * SCALE <= r.cosine * COSINE1 - r.sine * SINE1 - SCALE * t.cosine <= 2 * SCALE
  }

  /** More than any row is off. */
  const MARGIN: int := 1_000_000_000_000

  predicate Encloses(t: Row, k: nat) {
    && SCALE * k <= 0x1_0000_0000 * (Size(t.sine) - MARGIN)
    && 0x1_0000_0000 * (Size(t.sine) + MARGIN) < SCALE * (k + 1)
  }

  /** The additive constant of an operation, as a number and as a word, and the sine that encloses it. */
  predicate IsConstant(op: Op, t: Row, k: nat, w: bv32) {
    op.ac == w && k < 0x1_0000_0000 && k as bv32 == w && Encloses(t, k)
  }

  ghost predicate Known(op: Op, t: Row) {
    exists k: nat, w: bv32 :: IsConstant(op, t, k, w)
  }

  lemma Line0()
    ensures forall j :: 0 <= j < 7 ==> Follows(ROWS[0][j], ROWS[0][j + 1])
    ensures Follows(ROWS[0][7], ROWS[1][0])
  {
  }

  lemma Line1()
    ensures forall j :: 0 <= j < 7 ==> Follows(ROWS[1][j], ROWS[1][j + 1])
    ensures Follows(ROWS[1][7], ROWS[2][0])
  {
  }

  lemma Line2()
    ensures forall j :: 0 <= j < 7 ==> Follows(ROWS[2][j], ROWS[2][j + 1])
    ensures Follows(ROWS[2][7], ROWS[3][0])
  {
  }

  lemma Line3()
    ensures forall j :: 0 <= j < 7 ==> Follows(ROWS[3][j], ROWS[3][j + 1])
    ensures Follows(ROWS[3][7], ROWS[4][0])
  {
  }

  lemma Line4()
    ensures forall j :: 0 <= j < 7 ==> Follows(ROWS[4][j], ROWS[4][j + 1])
    ensures Follows(ROWS[4][7], ROWS[5][0])
  {
  }

  lemma Line5()
    ensures forall j :: 0 <= j < 7 ==> Follows(ROWS[5][j], ROWS[5][j + 1])
    ensures Follows(ROWS[5][7], ROWS[6][0])
  {
  }

  lemma Line6()
    ensures forall j :: 0 <= j < 7 ==> Follows(ROWS[6][j], ROWS[6][j + 1])
    ensures Follows(ROWS[6][7], ROWS[7][0])
  {
  }

  lemma Line7()
    ensures forall j :: 0 <= j < 7 ==> Follows(ROWS[7][j], ROWS[7][j + 1])
    ensures Follows(ROWS[7][7], ROWS[8][0])
  {
  }

  lemma RowsFollow(n: nat)
    requires n < 64
    ensures Follows(RowAt(n), RowAt(n + 1))
  {
    hide Follows, ROWS;
    Line0();
    Line1();
    Line2();
    Line3();
    Line4();
    Line5();
    Line6();
    Line7();
    assert n % 8 == 7 ==> (n + 1) / 8 == n / 8 + 1 && (n + 1) % 8 == 0;
    assert n % 8 < 7 ==> (n + 1) / 8 == n / 8 && (n + 1) % 8 == n % 8 + 1;
  }

  lemma Constants0()
    ensures forall j :: 0 <= j < 7 ==> Known(ROUND1[j], ROWS[0][j + 1])
    ensures Known(ROUND1[7], ROWS[1][0])
  {
    assert IsConstant(ROUND1[0], ROWS[0][1], 3614090360, 3614090360);
    assert IsConstant(ROUND1[1], ROWS[0][2], 3905402710, 3905402710);
    assert IsConstant(ROUND1[2], ROWS[0][3], 606105819, 606105819);
    assert IsConstant(ROUND1[3], ROWS[0][4], 3250441966, 3250441966);
    assert IsConstant(ROUND1[4], ROWS[0][5], 4118548399, 4118548399);
    assert IsConstant(ROUND1[5], ROWS[0][6], 1200080426, 1200080426);
    assert IsConstant(ROUND1[6], ROWS[0][7], 2821735955, 2821735955);
    assert IsConstant(ROUND1[7], ROWS[1][0], 4249261313, 4249261313);
  }

  lemma Constants1()
    ensures forall j :: 8 <= j < 15 ==> Known(ROUND1[j], ROWS[1][j - 7])
    ensures Known(ROUND1[15], ROWS[2][0])
  {
    assert IsConstant(ROUND1[8], ROWS[1][1], 1770035416, 1770035416);
    assert IsConstant(ROUND1[9], ROWS[1][2], 2336552879, 2336552879);
    assert IsConstant(ROUND1[10], ROWS[1][3], 4294925233, 4294925233);
    assert IsConstant(ROUND1[11], ROWS[1][4], 2304563134, 2304563134);
    assert IsConstant(ROUND1[12], ROWS[1][5], 1804603682, 1804603682);
    assert IsConstant(ROUND1[13], ROWS[1][6], 4254626195, 4254626195);
    assert IsConstant(ROUND1[14], ROWS[1][7], 2792965006, 2792965006);
    assert IsConstant(ROUND1[15], ROWS[2][0], 1236535329, 1236535329);
  }

  lemma Constants2()
    ensures forall j :: 0 <= j < 7 ==> Known(ROUND2[j], ROWS[2][j + 1])
    ensures Known(ROUND2[7], ROWS[3][0])
  {
    assert IsConstant(ROUND2[0], ROWS[2][1], 4129170786, 4129170786);
    assert IsConstant(ROUND2[1], ROWS[2][2], 3225465664, 3225465664);
    assert IsConstant(ROUND2[2], ROWS[2][3], 643717713, 643717713);
    assert IsConstant(ROUND2[3], ROWS[2][4], 3921069994, 3921069994);
    assert IsConstant(ROUND2[4], ROWS[2][5], 3593408605, 3593408605);
    assert IsConstant(ROUND2[5], ROWS[2][6], 38016083, 38016083);
    assert IsConstant(ROUND2[6], ROWS[2][7], 3634488961, 3634488961);
    assert IsConstant(ROUND2[7], ROWS[3][0], 3889429448, 3889429448);
  }

  lemma Constants3()
    ensures forall j :: 8 <= j < 15 ==> Known(ROUND2[j], ROWS[3][j - 7])
    ensures Known(ROUND2[15], ROWS[4][0])
  {
    assert IsConstant(ROUND2[8], ROWS[3][1], 568446438, 568446438);
    assert IsConstant(ROUND2[9], ROWS[3][2], 3275163606, 3275163606);
    assert IsConstant(ROUND2[10], ROWS[3][3], 4107603335, 4107603335);
    assert IsConstant(ROUND2[11], ROWS[3][4], 1163531501, 1163531501);
    assert IsConstant(ROUND2[12], ROWS[3][5], 2850285829, 2850285829);
    assert IsConstant(ROUND2[13], ROWS[3][6], 4243563512, 4243563512);
    assert IsConstant(ROUND2[14], ROWS[3][7], 1735328473, 1735328473);
    assert IsConstant(ROUND2[15], ROWS[4][0], 2368359562, 2368359562);
  }

  lemma Constants4()
    ensures forall j :: 0 <= j < 7 ==> Known(ROUND3[j], ROWS[4][j + 1])
    ensures Known(ROUND3[7], ROWS[5][0])
  {
    assert IsConstant(ROUND3[0], ROWS[4][1], 4294588738, 4294588738);
    assert IsConstant(ROUND3[1], ROWS[4][2], 2272392833, 2272392833);
    assert IsConstant(ROUND3[2], ROWS[4][3], 1839030562, 1839030562);
    assert IsConstant(ROUND3[3], ROWS[4][4], 4259657740, 4259657740);
    assert IsConstant(ROUND3[4], ROWS[4][5], 2763975236, 2763975236);
    assert IsConstant(ROUND3[5], ROWS[4][6], 1272893353, 1272893353);
    assert IsConstant(ROUND3[6], ROWS[4][7], 4139469664, 4139469664);
    assert IsConstant(ROUND3[7], ROWS[5][0], 3200236656, 3200236656);
  }

  lemma Constants5()
    ensures forall j :: 8 <= j < 15 ==> Known(ROUND3[j], ROWS[5][j - 7])
    ensures Known(ROUND3[15], ROWS[6][0])
  {
    assert IsConstant(ROUND3[8], ROWS[5][1], 681279174, 681279174);
    assert IsConstant(ROUND3[9], ROWS[5][2], 3936430074, 3936430074);
    assert IsConstant(ROUND3[10], ROWS[5][3], 3572445317, 3572445317);
    assert IsConstant(ROUND3[11], ROWS[5][4], 76029189, 76029189);
    assert IsConstant(ROUND3[12], ROWS[5][5], 3654602809, 3654602809);
    assert IsConstant(ROUND3[13], ROWS[5][6], 3873151461, 3873151461);
    assert IsConstant(ROUND3[14], ROWS[5][7], 530742520, 530742520);
    assert IsConstant(ROUND3[15], ROWS[6][0], 3299628645, 3299628645);
  }

  lemma Constants6()
    ensures forall j :: 0 <= j < 7 ==> Known(ROUND4[j], ROWS[6][j + 1])
    ensures Known(ROUND4[7], ROWS[7][0])
  {
    assert IsConstant(ROUND4[0], ROWS[6][1], 4096336452, 4096336452);
    assert IsConstant(ROUND4[1], ROWS[6][2], 1126891415, 1126891415);
    assert IsConstant(ROUND4[2], ROWS[6][3], 2878612391, 2878612391);
    assert IsConstant(ROUND4[3], ROWS[6][4], 4237533241, 4237533241);
    assert IsConstant(ROUND4[4], ROWS[6][5], 1700485571, 1700485571);
    assert IsConstant(ROUND4[5], ROWS[6][6], 2399980690, 2399980690);
    assert IsConstant(ROUND4[6], ROWS[6][7], 4293915773, 4293915773);
    assert IsConstant(ROUND4[7], ROWS[7][0], 2240044497, 2240044497);
  }

  lemma Constants7()
    ensures forall j :: 8 <= j < 15 ==> Known(ROUND4[j], ROWS[7][j - 7])
    ensures Known(ROUND4[15], ROWS[8][0])
  {
    assert IsConstant(ROUND4[8], ROWS[7][1], 1873313359, 1873313359);
    assert IsConstant(ROUND4[9], ROWS[7][2], 4264355552, 4264355552);
    assert IsConstant(ROUND4[10], ROWS[7][3], 2734768916, 2734768916);
    assert IsConstant(ROUND4[11], ROWS[7][4], 1309151649, 1309151649);
    assert IsConstant(ROUND4[12], ROWS[7][5], 4149444226, 4149444226);
    assert IsConstant(ROUND4[13], ROWS[7][6], 3174756917, 3174756917);
    assert IsConstant(ROUND4[14], ROWS[7][7], 718787259, 718787259);
    assert IsConstant(ROUND4[15], ROWS[8][0], 3951481745, 3951481745);
  }

  lemma AllKnown(n: nat)
    requires n < 64
    ensures Known(OpAt(n), RowAt(n + 1))
  {
    hide Known, ROWS, ROUND1, ROUND2, ROUND3, ROUND4;
    Constants0();
    Constants1();
    Constants2();
    Constants3();
    Constants4();
    Constants5();
    Constants6();
    Constants7();
  }

  // ----- one radian -----

  lemma FirstTerms()
    ensures Term(1) == 1.0 / 1.0
    ensures Term(2) == 1.0 / 2.0
    ensures Term(3) == 1.0 / 6.0
    ensures Term(4) == 1.0 / 24.0
    ensures Term(5) == 1.0 / 120.0
    ensures Term(6) == 1.0 / 720.0
    ensures Term(7) == 1.0 / 5040.0
    ensures Term(8) == 1.0 / 40320.0
    ensures Term(9) == 1.0 / 362880.0
  {
    assert Term(1) == Term(0) / 1.0;
    assert Term(2) == Term(1) / 2.0;
    assert Term(3) == Term(2) / 3.0;
    assert Term(4) == Term(3) / 4.0;
    assert Term(5) == Term(4) / 5.0;
    assert Term(6) == Term(5) / 6.0;
    assert Term(7) == Term(6) / 7.0;
    assert Term(8) == Term(7) / 8.0;
    assert Term(9) == Term(8) / 9.0;
  }

  lemma MiddleTerms()
    requires Term(9) == 1.0 / 362880.0
    ensures Term(10) == 1.0 / 3628800.0
    ensures Term(11) == 1.0 / 39916800.0
    ensures Term(12) == 1.0 / 479001600.0
    ensures Term(13) == 1.0 / 6227020800.0
    ensures Term(14) == 1.0 / 87178291200.0
    ensures Term(15) == 1.0 / 1307674368000.0
    ensures Term(16) == 1.0 / 20922789888000.0
    ensures Term(17) == 1.0 / 355687428096000.0
    ensures Term(18) == 1.0 / 6402373705728000.0
  {
    assert Term(10) == Term(9) / 10.0;
    assert Term(11) == Term(10) / 11.0;
    assert Term(12) == Term(11) / 12.0;
    assert Term(13) == Term(12) / 13.0;
    assert Term(14) == Term(13) / 14.0;
    assert Term(15) == Term(14) / 15.0;
    assert Term(16) == Term(15) / 16.0;
    assert Term(17) == Term(16) / 17.0;
    assert Term(18) == Term(17) / 18.0;
  }

  lemma LastTerms()
    requires Term(18) == 1.0 / 6402373705728000.0
    ensures Term(19) == 1.0 / 121645100408832000.0
    ensures Term(20) == 1.0 / 2432902008176640000.0
    ensures Term(21) == 1.0 / 51090942171709440000.0
    ensures Term(22) == 1.0 / 1124000727777607680000.0
    ensures Term(23) == 1.0 / 25852016738884976640000.0
    ensures Term(24) == 1.0 / 620448401733239439360000.0
    ensures Term(25) == 1.0 / 15511210043330985984000000.0
    ensures Term(26) == 1.0 / 403291461126605635584000000.0
  {
    assert Term(19) == Term(18) / 19.0;
    assert Term(20) == Term(19) / 20.0;
    assert Term(21) == Term(20) / 21.0;
    assert Term(22) == Term(21) / 22.0;
    assert Term(23) == Term(22) / 23.0;
    assert Term(24) == Term(23) / 24.0;
    assert Term(25) == Term(24) / 25.0;
    assert Term(26) == Term(25) / 26.0;
  }

  lemma SineOfOne()
    ensures UNIT * SineSum(12) >= SINE1 as real - 1.0
    ensures UNIT * SineSum(13) <= SINE1 as real + 1.0
  {
    FirstTerms();
    MiddleTerms();
    LastTerms();
    assert SineSum(0) == 0.0;
    assert SineSum(1) == SineSum(0) + Term(1);
    assert SineSum(2) == SineSum(1) - Term(3);
    assert SineSum(3) == SineSum(2) + Term(5);
    assert SineSum(4) == SineSum(3) - Term(7);
    assert SineSum(5) == SineSum(4) + Term(9);
    assert SineSum(6) == SineSum(5) - Term(11);
    assert SineSum(7) == SineSum(6) + Term(13);
    assert SineSum(8) == SineSum(7) - Term(15);
    assert SineSum(9) == SineSum(8) + Term(17);
    assert SineSum(10) == SineSum(9) - Term(19);
    assert SineSum(11) == SineSum(10) + Term(21);
    assert SineSum(12) == SineSum(11) - Term(23);
    assert SineSum(13) == SineSum(12) + Term(25);
  }

  lemma CosineOfOne()
    ensures UNIT * CosineSum(14) >= COSINE1 as real - 1.0
    ensures UNIT * CosineSum(13) <= COSINE1 as real + 1.0
  {
    FirstTerms();
    MiddleTerms();
    LastTerms();
    assert CosineSum(0) == 0.0;
    assert CosineSum(1) == CosineSum(0) + Term(0);
    assert CosineSum(2) == CosineSum(1) - Term(2);
    assert CosineSum(3) == CosineSum(2) + Term(4);
    assert CosineSum(4) == CosineSum(3) - Term(6);
    assert CosineSum(5) == CosineSum(4) + Term(8);
    assert CosineSum(6) == CosineSum(5) - Term(10);
    assert CosineSum(7) == CosineSum(6) + Term(12);
    assert CosineSum(8) == CosineSum(7) - Term(14);
    assert CosineSum(9) == CosineSum(8) + Term(16);
    assert CosineSum(10) == CosineSum(9) - Term(18);
    assert CosineSum(11) == CosineSum(10) + Term(20);
    assert CosineSum(12) == CosineSum(11) - Term(22);
    assert CosineSum(13) == CosineSum(12) + Term(24);
    assert CosineSum(14) == CosineSum(13) - Term(26);
  }

  // ----- how far the rows are off -----

  /** A bound on the error of row n, in units of the scale. */
  function Error(n: nat): (e: real)
    ensures e >= 0.0
  {
    if n == 0 then 0.0 else 1.4 * Error(n - 1) + 5.0
  }

  /** The real number x stands in the rows as a, but for an error e. */
  predicate Off(x: real, a: real, e: real) {
    -e <= UNIT * x - a <= e
  }

  /** The sine and cosine a and b lead to t by the addition theorem. */
  predicate Leads(a: real, b: real, t: real) {
    && -UNIT <= a <= UNIT && -UNIT <= b <= UNIT
    && -2.0 * UNIT <= a * COSINE1 as real + b * SINE1 as real - UNIT * t <= 2.0 * UNIT
  }

  /** Both coordinates of row n are within the error of the true ones. */
  predicate Close(sine: nat -> real, cosine: nat -> real, n: nat)
    requires n <= 64
  {
    && Off(sine(n), RowAt(n).sine as real, Error(n))
    && Off(cosine(n), RowAt(n).cosine as real, Error(n))
  }

  lemma ProductBound(x: real, y: real, a: real, b: real)
    requires -a <= x <= a && -b <= y <= b
    ensures -(a * b) <= x * y <= a * b
  {
    assert (a - x) * (b + y) >= 0.0 && (a + x) * (b - y) >= 0.0;
    assert (a - x) * (b - y) >= 0.0 && (a + x) * (b + y) >= 0.0;
  }

  lemma Expanded(x: real, a: real, c: real, d: real)
    ensures x * c - a * d == a * (c - d) + d * (x - a) + (x - a) * (c - d)
  {
  }

  /** The error of a product of two approximated factors. */
  lemma ProductError(x: real, a: real, c: real, d: real, e: real)
    requires -e <= x - a <= e && -1.0 <= c - d <= 1.0 && -UNIT <= a <= UNIT && 0.0 <= d
    ensures -(UNIT + d * e + e) <= x * c - a * d <= UNIT + d * e + e
  {
    var p, q, r := a * (c - d), d * (x - a), (x - a) * (c - d);
    assert -UNIT <= p <= UNIT by {
      ProductBound(a, c - d, UNIT, 1.0);
    }
    assert -(d * e) <= q <= d * e by {
      ProductBound(d, x - a, d, e);
    }
    assert -e <= r <= e by {
      ProductBound(x - a, c - d, e, 1.0);
    }
    Expanded(x, a, c, d);
  }

  /** One radian further on: what the row t is off by, when the row it follows is off by e. */
  lemma TurnError(x: real, y: real, c: real, s: real, a: real, b: real, t: real, e: real)
    requires -e <= x - a <= e && -e <= y - b <= e && -UNIT <= a <= UNIT && -UNIT <= b <= UNIT
    requires -1.0 <= c - COSINE1 as real <= 1.0 && -1.0 <= s - SINE1 as real <= 1.0
    requires -2.0 * UNIT <= a * COSINE1 as real + b * SINE1 as real - UNIT * t <= 2.0 * UNIT
    ensures -(UNIT * (1.4 * e + 5.0)) <= x * c + y * s - UNIT * t <= UNIT * (1.4 * e + 5.0)
  {
    ProductError(x, a, c, COSINE1 as real, e);
    ProductError(y, b, s, SINE1 as real, e);
  }

  lemma BetweenAt(sum: nat -> real, x: real, k: nat)
    requires Between(sum, x)
    ensures if k % 2 == 0 then sum(k) <= x else x <= sum(k)
  {
  }

  lemma BetweenSums(sine: nat -> real, cosine: nat -> real)
    requires Trigonometric(sine, cosine)
    ensures SineSum(12) <= sine(1) <= SineSum(13) && CosineSum(14) <= cosine(1) <= CosineSum(13)
  {
    hide SineSum, CosineSum, Between;
    BetweenAt(SineSum, sine(1), 12);
    BetweenAt(SineSum, sine(1), 13);
    BetweenAt(CosineSum, cosine(1), 13);
    BetweenAt(CosineSum, cosine(1), 14);
  }

  lemma OneRadian(sine: nat -> real, cosine: nat -> real)
    requires Trigonometric(sine, cosine)
    ensures Off(sine(1), SINE1 as real, 1.0) && Off(cosine(1), COSINE1 as real, 1.0)
  {
    hide Trigonometric, SineSum, CosineSum;
    BetweenSums(sine, cosine);
    SineOfOne();
    CosineOfOne();
  }

  lemma Addition(sine: nat -> real, cosine: nat -> real, n: nat)
    requires Trigonometric(sine, cosine)
    ensures sine(n + 1) == sine(n) * cosine(1) + cosine(n) * sine(1)
    ensures cosine(n + 1) == cosine(n) * cosine(1) - sine(n) * sine(1)
  {
    hide SineSum, CosineSum, Between;
  }

  /** The addition theorem at the scale of the rows. */
  lemma Scaled(z: real, x: real, c: real, y: real, s: real)
    requires z == x * c + y * s
    ensures UNIT * (UNIT * z) == (UNIT * x) * (UNIT * c) + (UNIT * y) * (UNIT * s)
  {
  }

  lemma Divided(z: real, t: real, e: real)
    requires -(UNIT * e) <= UNIT * z - UNIT * t <= UNIT * e
    ensures -e <= z - t <= e
  {
  }

  /** The addition theorem on a row: the sum z is near to t when the factors are near to theirs. */
  lemma SumError(z: real, x: real, y: real, c: real, s: real, a: real, b: real, t: real, e: real)
    requires z == x * c + y * s
    requires Off(x, a, e) && Off(y, b, e) && Leads(a, b, t)
    requires Off(c, COSINE1 as real, 1.0) && Off(s, SINE1 as real, 1.0)
    ensures Off(z, t, 1.4 * e + 5.0)
  {
    Scaled(z, x, c, y, s);
    TurnError(UNIT * x, UNIT * y, UNIT * c, UNIT * s, a, b, t, e);
    Divided(UNIT * z, t, 1.4 * e + 5.0);
  }

  /** The rows follow each other, read as reals. */
  lemma FollowsReal(r: Row, t: Row)
    requires Follows(r, t)
    ensures Leads(r.sine as real, r.cosine as real, t.sine as real)
    ensures Leads(r.cosine as real, -r.sine as real, t.cosine as real)
  {
  }

  lemma Opposite(x: real, a: int, e: real)
    requires Off(x, a as real, e)
    ensures Off(-x, -a as real, e)
  {
  }

  /** From a row that is off by e to the sine of the next. */
  lemma NextSine(sine: nat -> real, cosine: nat -> real, n: nat, r: Row, t: Row, e: real)
    requires Trigonometric(sine, cosine) && Follows(r, t)
    requires Off(sine(n), r.sine as real, e) && Off(cosine(n), r.cosine as real, e)
    ensures Off(sine(n + 1), t.sine as real, 1.4 * e + 5.0)
  {
    hide Off, Leads, Follows, Trigonometric;
    OneRadian(sine, cosine);
    Addition(sine, cosine, n);
    FollowsReal(r, t);
    var a, b := r.sine as real, r.cosine as real;
    SumError(sine(n + 1), sine(n), cosine(n), cosine(1), sine(1), a, b, t.sine as real, e);
  }

  /** And to its cosine. */
  lemma NextCosine(sine: nat -> real, cosine: nat -> real, n: nat, r: Row, t: Row, e: real)
    requires Trigonometric(sine, cosine) && Follows(r, t)
    requires Off(sine(n), r.sine as real, e) && Off(cosine(n), r.cosine as real, e)
    ensures Off(cosine(n + 1), t.cosine as real, 1.4 * e + 5.0)
  {
    hide Off, Leads, Follows, Trigonometric;
    OneRadian(sine, cosine);
    Addition(sine, cosine, n);
    FollowsReal(r, t);
    Opposite(sine(n), r.sine, e);
    var b := r.cosine as real;
    SumError(cosine(n + 1), cosine(n), -sine(n), cosine(1), sine(1), b, -r.sine as real, t.cosine as real, e);
  }

  lemma FirstRow(sine: nat -> real, cosine: nat -> real)
    requires sine(0) == 0.0 && cosine(0) == 1.0
    ensures Close(sine, cosine, 0)
  {
    assert RowAt(0) == ROWS[0][0] == Row(0, SCALE);
  }

  lemma StartsAtZero(sine: nat -> real, cosine: nat -> real)
    requires Trigonometric(sine, cosine)
    ensures sine(0) == 0.0 && cosine(0) == 1.0
  {
    hide SineSum, CosineSum, Between;
  }

  lemma {:induction false} RowsAreClose(sine: nat -> real, cosine: nat -> real, n: nat)
    requires n <= 64 && Trigonometric(sine, cosine)
    ensures Close(sine, cosine, n)
  {
    hide Trigonometric, Off, RowAt, Follows;
    if n == 0 {
      StartsAtZero(sine, cosine);
      FirstRow(sine, cosine);
    } else {
      RowsAreClose(sine, cosine, n - 1);
      RowsFollow(n - 1);
      NextSine(sine, cosine, n - 1, RowAt(n - 1), RowAt(n), Error(n - 1));
      NextCosine(sine, cosine, n - 1, RowAt(n - 1), RowAt(n), Error(n - 1));
    }
  }

  // ----- the constants -----

  lemma EightMore(n: nat)
    ensures Error(n + 8) <= 15.0 * Error(n) + 180.0
  {
    assert Error(n + 1) == 1.4 * Error(n) + 5.0;
    assert Error(n + 2) == 1.4 * Error(n + 1) + 5.0;
    assert Error(n + 3) == 1.4 * Error(n + 2) + 5.0;
    assert Error(n + 4) == 1.4 * Error(n + 3) + 5.0;
    assert Error(n + 5) == 1.4 * Error(n + 4) + 5.0;
    assert Error(n + 6) == 1.4 * Error(n + 5) + 5.0;
    assert Error(n + 7) == 1.4 * Error(n + 6) + 5.0;
    assert Error(n + 8) == 1.4 * Error(n + 7) + 5.0;
  }

  lemma {:induction false} ErrorGrows(n: nat, m: nat)
    requires n <= m
    ensures Error(n) <= Error(m)
  {
    if n < m {
      ErrorGrows(n, m - 1);
    }
  }

  lemma ErrorStarts()
    ensures Error(0) == 0.0
  {
  }

  lemma ErrorSmall(n: nat)
    requires n <= 64
    ensures Error(n) <= MARGIN as real
  {
    ErrorStarts();
    hide Error;
    ErrorGrows(n, 64);
    EightMore(0);
    EightMore(8);
    EightMore(16);
    EightMore(24);
    EightMore(32);
    EightMore(40);
    EightMore(48);
    EightMore(56);
  }

  /** The number that encloses the row is the integer part for everything the row is near to. */
  lemma EnclosedFloor(x: real, t: Row, k: nat, e: real)
    requires Off(x, t.sine as real, e) && e <= MARGIN as real && Encloses(t, k)
    ensures (4294967296.0 * Abs(x)).Floor == k
  {
    var y := Abs(x);
    assert UNIT * y >= Size(t.sine) as real - MARGIN as real by {
      if t.sine < 0 {
        assert x <= y && -x <= y;
      } else {
        assert x <= y;
      }
    }
    assert UNIT * y <= Size(t.sine) as real + MARGIN as real;
    assert k as real <= 4294967296.0 * y < k as real + 1.0;
  }

  /** The word w is the integer part of 2^32 |x|. */
  predicate IsPart(w: bv32, x: real) {
    var part := (4294967296.0 * Abs(x)).Floor;
    0 <= part < 0x1_0000_0000 && w == part as bv32
  }

  lemma ConstantIsSine(op: Op, x: real, t: Row, e: real)
    requires Known(op, t) && Off(x, t.sine as real, e) && e <= MARGIN as real
    ensures IsPart(op.ac, x)
  {
    hide Off, Encloses, Abs;
    var k: nat, w: bv32 :| IsConstant(op, t, k, w);
    EnclosedFloor(x, t, k, e);
  }

  /** Operation n adds the integer part of 2^32 |sin(n + 1)|. */
  lemma ConstantsAreSines(sine: nat -> real, cosine: nat -> real, n: nat)
    requires n < 64 && Trigonometric(sine, cosine)
    ensures IsPart(OpAt(n).ac, sine(n + 1))
  {
    hide Trigonometric, RowAt, OpAt, Off, Known, Error, IsPart;
    AllKnown(n);
    RowsAreClose(sine, cosine, n + 1);
    ErrorSmall(n + 1);
    ConstantIsSine(OpAt(n), sine(n + 1), RowAt(n + 1), Error(n + 1));
  }
}
