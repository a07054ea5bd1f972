/** The 64 constants of MD5 against section 3.4 of RFC 1321: the integer parts of 2^32 times the absolute values of the
    sines of 1 to 64 radians. */
module Md5Sines {
  import opened Md5Words

  // ---- the sines -----------------------------------------------------------------------------

  function Factorial(n: nat): (f: nat)
    ensures f > 0
  {
    if n == 0 then 1 else Factorial(n - 1) * n
  }

  /** 1 - 1/3! + 1/5! - ... with k + 1 terms, times (2k + 1)!. */
  function SineTerms(k: nat): int {
    if k == 0 then 1 else SineTerms(k - 1) * (2 * k * (2 * k + 1)) + if k % 2 == 0 then 1 else -1
  }

  /** 1 - 1/2! + 1/4! - ... with k + 1 terms, times (2k)!. */
  function CosineTerms(k: nat): int {
    if k == 0 then 1 else CosineTerms(k - 1) * ((2 * k - 1) * (2 * k)) + if k % 2 == 0 then 1 else -1
  }

  const TERMS := 16

  /** Reals no further from the series of sine at 1 than the last of its first 17 terms; sin 1 is one of them,
      for the signs alternate and the terms fall. */
  predicate LikeSineOfOne(s: real) {
    -1.0 <= s * Factorial(2 * TERMS + 1) as real - SineTerms(TERMS) as real <= 1.0
  }

  predicate LikeCosineOfOne(c: real) {
    -1.0 <= c * Factorial(2 * TERMS) as real - CosineTerms(TERMS) as real <= 1.0
  }

  datatype Point = Point(x: real, y: real)

  /** A turn of a point about the origin. */
  function Turn(p: Point, c: real, s: real): Point {
    Point(p.x * c - p.y * s, p.y * c + p.x * s)
  }

  /** (cos n, sin n): n turns by one radian. */
  function Turned(n: nat, c: real, s: real): Point {
    if n == 0 then Point(1.0, 0.0) else Turn(Turned(n - 1, c, s), c, s)
  }

  function Abs(x: real): real {
    if x < 0.0 then -x else x
  }

  /** t is the integer part of 2^32 * |x|. */
  predicate IntegerPart(t: bv32, x: real) {
    (t as int) as real <= 4294967296.0 * Abs(x) < (t as int + 1) as real
  }

  // ---- decimal fractions near them -----------------------------------------------------------

  const UNIT := 10000000000000000000000000000000000

  /** Coordinates in units of 10^-34 and how far off they may be. */
  datatype Spot = Spot(x: int, y: int, off: nat)

  predicate Within(x: real, a: int, off: nat) {
    -(off as real) <= x * UNIT as real - a as real <= off as real
  }

  predicate Near(p: Point, q: Spot) {
    Within(p.x, q.x, q.off) && Within(p.y, q.y, q.off)
  }

  const COS := 5403023058681397174009366074429766
  const SIN := 8414709848078965066525023216302990

  lemma Factorials()
    ensures Factorial(32) == 263130836933693530167218012160000000
    ensures Factorial(33) == 8683317618811886495518194401280000000
  {
    assert Factorial(4) == 24;
    assert Factorial(8) == 40320;
    assert Factorial(12) == 479001600;
    assert Factorial(16) == 20922789888000;
    assert Factorial(20) == 2432902008176640000;
    assert Factorial(24) == 620448401733239439360000;
    assert Factorial(28) == 304888344611713860501504000000;
  }

  lemma Terms()
    ensures SineTerms(16) == 7306759828101397010672254509474141985
    ensures CosineTerms(16) == 142170197940288076928023561525491809
  {
    assert SineTerms(3) == 4241 && CosineTerms(3) == 389;
    assert SineTerms(6) == 5239857325 && CosineTerms(6) == 258805669;
    assert SineTerms(9) == 102360822438075317 && CosineTerms(9) == 3459217276234385;
    assert SineTerms(12) == 13052233190723859821607001 && CosineTerms(12) == 335229702128671164345673;
    assert SineTerms(15) == 6919280140247535047985089497608089 && CosineTerms(15) == 143316731794645238838733428957149;
  }

  lemma OneRadian(c: real, s: real)
    requires LikeCosineOfOne(c) && LikeSineOfOne(s)
    ensures Within(c, COS, 1) && Within(s, SIN, 1)
  {
    hide Factorial, SineTerms, CosineTerms;
    Factorials();
    Terms();
  }

  // ---- one turn ----------------------------------------------------------------------------------

  lemma Bounded(u: real, v: real, a: real, b: real)
    requires -a <= u <= a && -b <= v <= b
    ensures -(a * b) <= u * v <= a * b
  {
    if u >= 0.0 {
      assert -(u * b) <= u * v <= u * b;
      assert u * b <= a * b;
    } else {
      assert u * b <= u * v <= -(u * b);
      assert -(u * b) <= a * b;
    }
  }

  lemma Expand(u: real, a: real, v: real, b: real)
    ensures (u + a) * (v + b) == u * v + u * b + a * v + a * b
  {
  }

  /** A product, named so that proofs about sums need not look at it. */
  function Times(x: real, y: real): real {
    x * y
  }

  /** A product of two numbers that are nearly a and b. */
  lemma ProductNear(x: real, a: real, e: real, y: real, b: real)
    requires -e <= x - a <= e && -1.0 <= y - b <= 1.0 && 0.0 <= b && -(UNIT as real) <= a <= UNIT as real
    ensures -(UNIT as real + Times(e, b) + e) <= Times(x, y) - Times(a, b) <= UNIT as real + Times(e, b) + e
  {
    var u, v := x - a, y - b;
    Bounded(u, b, e, b);
    Bounded(u, v, e, 1.0);
    Bounded(a, v, UNIT as real, 1.0);
    Expand(u, a, v, b);
  }

  lemma Scaled(p: real, q: real)
    ensures Times(p * UNIT as real, q * UNIT as real) == Times(p, q) * UNIT as real * UNIT as real
  {
  }

  /** The next spot is where the turn leads from this one, rounded. */
  predicate Follows(p: Spot, q: Spot) {
    && -UNIT <= p.x <= UNIT && -UNIT <= p.y <= UNIT
    && -UNIT <= p.x * COS - p.y * SIN - q.x * UNIT <= UNIT
    && -UNIT <= p.y * COS + p.x * SIN - q.y * UNIT <= UNIT
    && q.off == 2 * p.off + 4
  }

  lemma WholeProducts(a: int, b: int, off: nat)
    ensures Times(a as real, COS as real) == (a * COS) as real && Times(b as real, SIN as real) == (b * SIN) as real
    ensures Times(off as real, COS as real) == COS as real * off as real
    ensures Times(off as real, SIN as real) == SIN as real * off as real
  {
  }

  /** The two products of a coordinate, against those of whole numbers. */
  lemma ProductsNear(x: real, a: int, y: real, b: int, c: real, s: real, off: nat)
    requires Within(x, a, off) && Within(y, b, off) && Within(c, COS, 1) && Within(s, SIN, 1)
    requires -UNIT <= a <= UNIT && -UNIT <= b <= UNIT
    ensures var unit := UNIT as real;
            var slack := 2.0 * unit + COS as real * off as real + SIN as real * off as real + 2.0 * off as real;
            var d := Times(x * unit, c * unit) - Times(y * unit, s * unit) - (a * COS) as real + (b * SIN) as real;
            -slack <= d <= slack
  {
    hide Times;
    var unit, e := UNIT as real, off as real;
    ProductNear(x * unit, a as real, e, c * unit, COS as real);
    ProductNear(y * unit, b as real, e, s * unit, SIN as real);
    WholeProducts(a, b, off);
  }

  /** The first coordinate after a turn. */
  lemma Coordinate(x: real, a: int, y: real, b: int, c: real, s: real, q: int, off: nat)
    requires Within(x, a, off) && Within(y, b, off) && Within(c, COS, 1) && Within(s, SIN, 1)
    requires -UNIT <= a <= UNIT && -UNIT <= b <= UNIT && -UNIT <= a * COS - b * SIN - q * UNIT <= UNIT
    ensures Within(Times(x, c) - Times(y, s), q, 2 * off + 4)
  {
    ProductsNear(x, a, y, b, c, s, off);
    Scaled(x, c);
    Scaled(y, s);
    hide Times;
    Divided(Times(x, c) - Times(y, s), q, Times(x * UNIT as real, c * UNIT as real)
                                          - Times(y * UNIT as real, s * UNIT as real), off as real);
  }

  lemma Divided(z: real, a: int, w: real, e: real)
    requires e >= 0.0 && w == z * UNIT as real * UNIT as real
    requires var slack := 3.0 * UNIT as real + COS as real * e + SIN as real * e + 2.0 * e;
             -slack <= w - (a * UNIT) as real <= slack
    ensures -(2.0 * e + 4.0) <= z * UNIT as real - a as real <= 2.0 * e + 4.0
  {
  }

  lemma TurnInProducts(p: Point, c: real, s: real)
    ensures Turn(p, c, s) == Point(Times(p.x, c) - Times(p.y, s), Times(p.y, c) + Times(p.x, s))
  {
  }

  lemma Opposite(x: real, a: int, off: nat, s: real)
    requires Within(x, a, off)
    ensures Within(-x, -a, off) && Times(-x, s) == -Times(x, s)
  {
  }

  /** Bounds of a sine that give the integer part. */
  predicate Gives(q: Spot, t: nat) {
    var size := if q.y < 0 then -q.y else q.y;
    t * UNIT <= (size - q.off) * 4294967296 && (size + q.off) * 4294967296 < (t + 1) * UNIT
  }

  lemma PartGiven(y: real, q: Spot, t: bv32)
    requires Within(y, q.y, q.off) && Gives(q, t as int)
    ensures IntegerPart(t, y)
  {
  }
  // ---- the 64 sines ------------------------------------------------------------------------------

  // Where n turns lead.

  const P0 := Spot(10000000000000000000000000000000000, 0, 0)
  const P1 := Spot(5403023058681397174009366074429766, 8414709848078965066525023216302990, 4)
  const P2 := Spot(-4161468365471423869975682295007622, 9092974268256816953960198659117448, 12)
  const P3 := Spot(-9899924966004454572715727947312613, 1411200080598672221007448028081103, 28)
  const P4 := Spot(-6536436208636119146391681830977504, -7568024953079282513726390945118291, 60)
  const P5 := Spot(2836621854632262644666391715135573, -9589242746631384688931544061559940, 124)
  const P6 := Spot(9601702866503660205456522979229244, -2794154981989258728115554466118948, 252)
  const P7 := Spot(7539022543433046381411975217191820, 6569865987187890903969990915936352, 508)
  const P8 := Spot(-1455000338086135258688413818311947, 9893582466233817778081235982452887, 1020)
  const P9 := Spot(-9111302618846769883682947111811653, 4121184852417565697562725663524352, 2044)
  const P10 := Spot(-8390715290764524522588639478240648, -5440211108893698134047476618513773, 4092)
  const P11 := Spot(44256979880507857483550247239416, -9999902065507034570515648990255221, 8188)
  const P12 := Spot(8438539587324921046539552931736218, -5365729180004349716653742282424018, 16380)
  const P13 := Spot(9074467814501962138526861554744758, 4201670368266409218689550354768828, 32764)
  const P14 := Spot(1367372182078335942489288766717382, 9906073556948703078753548040145856, 65532)
  const P15 := Spot(-7596879128588212738481464036332805, 6502878401571168658297402709888703, 131068)
  const P16 := Spot(-9576594803233846418996372326511035, -2879033166650652947844562482186175, 262140)
  const P17 := Spot(-2751633380515969222203426565518629, -9613974918795568572616369448691561, 524284)
  const P18 := Spot(6603167082440801448161000447904508, -7509872467716761037501560844471145, 1048572)
  const P19 := Spot(9887046181866692528983528565481573, 1498772096629523297542393212382539, 2097148)
  const P20 := Spot(4080820618133919860622678609276450, 9129452507276276543760999838456823, 4194300)
  const P21 := Spot(-5477292602242684213842711329509820, 8366556385360560318664807702450238, 8388604)
  const P22 := Spot(-9999608263946371264541747392126938, -88513092904038759216902568157723, 16777212)
  const P23 := Spot(-5328330203333975552157576571641258, -8462204041751706352413262719055959, 33554428)
  const P24 := Spot(4241790073369969759370509447592065, -9055783620066238451357933585277933, 67108860)
  const P25 := Spot(9912028118634735980832947188159242, -1323517500977730289020050938836063, 134217724)
  const P26 := Spot(6469193223286403427213839018889016, 7625584504796027375158232932045630, 268435452)
  const P27 := Spot(-2921388087338361933714048358376299, 9563759284045030134323405583291930, 536870908)
  const P28 := Spot(-9626058663135666019754530578993089, 2709057883078690199863430927787925, 1073741820)
  const P29 := Spot(-7480575296890003517651917922551408, -6636338842129675021511733400611052, 2147483644)
  const P30 := Spot(1542514498875840507186621466142102, -9880316240928617899877489072944582, 4294967292)
  const P31 := Spot(9147423578045312789624358261503548, -4040376453230650060487708996642372, 8589934588)
  const P32 := Spot(8342233605065102722155264708702923, 5514266812416905506615581668457128, 17179869180)
  const P33 := Spot(-132767472230594789152200313710070, 9999118601072671457280843767078283, 34359738364)
  const P34 := Spot(-8485702747846051865999720877123832, 5290826861200238208324871340321048, 68719476732)
  const P35 := Spot(-9036922050915067598473045720837706, -4281826694961510044067528917459407, 137438953468)
  const P36 := Spot(-1279636896274046810283279779143712, -9917788534431157368352889688408158, 274877906940)
  const P37 := Spot(7654140519453433564910812929025117, -6435381333569994606856700190807955, 549755813884)
  const P38 := Spot(9550736440472948575865362354058770, 2963685787093853173922966498490173, 1099511627772)
  const P39 := Spot(2666429323599372515268257949756328, 9637953862840877532606649717658821, 2199023255548)
  const P40 := Spot(-6669380616522618443840927819337000, 7451131604793487869877094026363443, 4398046511100)
  const P41 := Spot(-9873392775238264582288251334148276, -1586226688047089871033170119296870, 8796093022204)
  const P42 := Spot(-3999853149883512939547073371772020, -9165215479156337858989891580696715, 17592186044412)
  const P43 := Spot(5551133015206256770448794419625920, -8317747426285982882095782562917522, 35184372088828)
  const P44 := Spot(9998433086476912200690090166378560, 177019251054135778079540531666167, 70368744177660)
  const P45 := Spot(5253219888177296960474644048235629, 8509035245341184248623796776180411, 140737488355324)
  const P46 := Spot(-4321779448847782949527765241327685, 9017883476488091850332930392227386, 281474976710652)
  const P47 := Spot(-9923354691509287182797524203448622, 1235731227452240040615293480864105, 562949953421308)
  const P48 := Spot(-6401443394691997313129414193930772, -7682546613236667990449656648458935, 1125899906842620)
  const P49 := Spot(3005925437436370836870260004905614, -9537526527594718183604235585877106, 2251799813685244)
  const P50 := Spot(9649660284921132740689570589010170, -2623748537039287859143936469126225, 4503599627370492)
  const P51 := Spot(7421541968137825394673771757369559, 6702291758433747344943450749506668, 9007199254740988)
  const P52 := Spot(-1629907807957054810033298154252117, 9866275920404852965875689344367401, 18014398509481980)
  const P53 := Spot(-9182827862121188911997263232164721, 3959251501818341815033861392635393, 36028797018963964)
  const P54 := Spot(-8293098328631501477278500424881687, -5587890488516162458178713189653938, 72057594037927932)
  const P55 := Spot(221267562619557345635642621466265, -9997551733586198365986316832438922, 144115188075855868)
  const P56 := Spot(8532201077225841139696812339149138, -5215510020869118801874100215106005, 288230376151711740)
  const P57 := Spot(8998668269691937865030004046578351, 4361647552478249590805347931292435, 576460752303423484)
  const P58 := Spot(1191801354488192854358436107669639, 9928726480845371181650881644253998, 1152921504606846972)
  const P59 := Spot(-7710802229758452293874352963762892, 6367380071391378807712334923768294, 2305843009213693948)
  const P60 := Spot(-9524129804151562926938165959929333, -3048106211022167056256494654784258, 4611686018427387900)
  const P61 := Spot(-2581016359382674457012073471527540, -9661177700083929470182879894805182, 9223372036854775804)
  const P62 := Spot(6735071623235862528878334059539365, -7391806966492228672760169337554366, 18446744073709551612)
  const P63 := Spot(9858965815825496974386357560539772, 1673557003028069215278383702887180, 36893488147419103228)
  const P64 := Spot(3918572304295500051617098585131229, 9200260381967906833515366037772519, 73786976294838206460)

  const SPOTS0: seq<Spot> := [P0, P1, P2, P3, P4, P5, P6, P7, P8, P9, P10, P11, P12, P13, P14, P15, P16]
  const SPOTS1: seq<Spot> := [P16, P17, P18, P19, P20, P21, P22, P23, P24, P25, P26, P27, P28, P29, P30, P31, P32]
  const SPOTS2: seq<Spot> := [P32, P33, P34, P35, P36, P37, P38, P39, P40, P41, P42, P43, P44, P45, P46, P47, P48]
  const SPOTS3: seq<Spot> := [P48, P49, P50, P51, P52, P53, P54, P55, P56, P57, P58, P59, P60, P61, P62, P63, P64]

  // The constants as numbers, row by row.

  const NUMBERS0: seq<nat> := [
    3614090360, 3905402710, 606105819, 3250441966, 4118548399, 1200080426, 2821735955, 4249261313,
    1770035416, 2336552879, 4294925233, 2304563134, 1804603682, 4254626195, 2792965006, 1236535329
  ]

  const NUMBERS1: seq<nat> := [
    4129170786, 3225465664, 643717713, 3921069994, 3593408605, 38016083, 3634488961, 3889429448,
    568446438, 3275163606, 4107603335, 1163531501, 2850285829, 4243563512, 1735328473, 2368359562
  ]

  const NUMBERS2: seq<nat> := [
    4294588738, 2272392833, 1839030562, 4259657740, 2763975236, 1272893353, 4139469664, 3200236656,
    681279174, 3936430074, 3572445317, 76029189, 3654602809, 3873151461, 530742520, 3299628645
  ]

  const NUMBERS3: seq<nat> := [
    4096336452, 1126891415, 2878612391, 4237533241, 1700485571, 2399980690, 4293915773, 2240044497,
    1873313359, 4264355552, 2734768916, 1309151649, 4149444226, 3174756917, 718787259, 3951481745
  ]

  function Spots(round: nat): seq<Spot> {
    match round
    case 0 => SPOTS0
    case 1 => SPOTS1
    case 2 => SPOTS2
    case _ => SPOTS3
  }

  function Numbers(round: nat): seq<nat> {
    match round
    case 0 => NUMBERS0
    case 1 => NUMBERS1
    case 2 => NUMBERS2
    case _ => NUMBERS3
  }

  /** One spot follows from the other, and its height gives the number. */
  predicate Links(p: Spot, q: Spot, t: nat) {
    Follows(p, q) && Gives(q, t)
  }

  predicate Chained(row: seq<Spot>, numbers: seq<nat>) {
    |row| == 17 && |numbers| == 16 && forall i: nat :: i < 16 ==> Links(row[i], row[i + 1], numbers[i])
  }

  predicate SameNumbers(row: seq<bv32>, numbers: seq<nat>) {
    |row| == 16 && |numbers| == 16 && forall i :: 0 <= i < 16 ==> row[i] as int == numbers[i]
  }

  lemma Linked0()
    ensures Links(P0, P1, 3614090360) && Links(P1, P2, 3905402710)
    ensures Links(P2, P3, 606105819) && Links(P3, P4, 3250441966)
    ensures Links(P4, P5, 4118548399) && Links(P5, P6, 1200080426)
    ensures Links(P6, P7, 2821735955) && Links(P7, P8, 4249261313)
    ensures Links(P8, P9, 1770035416) && Links(P9, P10, 2336552879)
    ensures Links(P10, P11, 4294925233) && Links(P11, P12, 2304563134)
    ensures Links(P12, P13, 1804603682) && Links(P13, P14, 4254626195)
    ensures Links(P14, P15, 2792965006) && Links(P15, P16, 1236535329)
  {
  }

  lemma Chained0()
    ensures Chained(SPOTS0, NUMBERS0)
  {
    hide Links;
    hide P0, P1, P2, P3, P4, P5, P6, P7, P8, P9, P10, P11, P12, P13, P14, P15, P16;
    Linked0();
  }

  lemma Linked1()
    ensures Links(P16, P17, 4129170786) && Links(P17, P18, 3225465664)
    ensures Links(P18, P19, 643717713) && Links(P19, P20, 3921069994)
    ensures Links(P20, P21, 3593408605) && Links(P21, P22, 38016083)
    ensures Links(P22, P23, 3634488961) && Links(P23, P24, 3889429448)
    ensures Links(P24, P25, 568446438) && Links(P25, P26, 3275163606)
    ensures Links(P26, P27, 4107603335) && Links(P27, P28, 1163531501)
    ensures Links(P28, P29, 2850285829) && Links(P29, P30, 4243563512)
    ensures Links(P30, P31, 1735328473) && Links(P31, P32, 2368359562)
  {
  }

  lemma Chained1()
    ensures Chained(SPOTS1, NUMBERS1)
  {
    hide Links;
    hide P16, P17, P18, P19, P20, P21, P22, P23, P24, P25, P26, P27, P28, P29, P30, P31, P32;
    Linked1();
  }

  lemma Linked2()
    ensures Links(P32, P33, 4294588738) && Links(P33, P34, 2272392833)
    ensures Links(P34, P35, 1839030562) && Links(P35, P36, 4259657740)
    ensures Links(P36, P37, 2763975236) && Links(P37, P38, 1272893353)
    ensures Links(P38, P39, 4139469664) && Links(P39, P40, 3200236656)
    ensures Links(P40, P41, 681279174) && Links(P41, P42, 3936430074)
    ensures Links(P42, P43, 3572445317) && Links(P43, P44, 76029189)
    ensures Links(P44, P45, 3654602809) && Links(P45, P46, 3873151461)
    ensures Links(P46, P47, 530742520) && Links(P47, P48, 3299628645)
  {
  }

  lemma Chained2()
    ensures Chained(SPOTS2, NUMBERS2)
  {
    hide Links;
    hide P32, P33, P34, P35, P36, P37, P38, P39, P40, P41, P42, P43, P44, P45, P46, P47, P48;
    Linked2();
  }

  lemma Linked3()
    ensures Links(P48, P49, 4096336452) && Links(P49, P50, 1126891415)
    ensures Links(P50, P51, 2878612391) && Links(P51, P52, 4237533241)
    ensures Links(P52, P53, 1700485571) && Links(P53, P54, 2399980690)
    ensures Links(P54, P55, 4293915773) && Links(P55, P56, 2240044497)
    ensures Links(P56, P57, 1873313359) && Links(P57, P58, 4264355552)
    ensures Links(P58, P59, 2734768916) && Links(P59, P60, 1309151649)
    ensures Links(P60, P61, 4149444226) && Links(P61, P62, 3174756917)
    ensures Links(P62, P63, 718787259) && Links(P63, P64, 3951481745)
  {
  }

  lemma Chained3()
    ensures Chained(SPOTS3, NUMBERS3)
  {
    hide Links;
    hide P48, P49, P50, P51, P52, P53, P54, P55, P56, P57, P58, P59, P60, P61, P62, P63, P64;
    Linked3();
  }

  lemma Numbers0()
    ensures |T| == 4 && SameNumbers(T[0], NUMBERS0)
  {
  }

  lemma Numbers1()
    ensures |T| == 4 && SameNumbers(T[1], NUMBERS1)
  {
  }

  lemma Numbers2()
    ensures |T| == 4 && SameNumbers(T[2], NUMBERS2)
  {
  }

  lemma Numbers3()
    ensures |T| == 4 && SameNumbers(T[3], NUMBERS3)
  {
  }

  lemma RowOf(round: nat)
    requires round < 4
    ensures |T| == 4 && Chained(Spots(round), Numbers(round)) && SameNumbers(T[round], Numbers(round))
  {
    hide Chained, SameNumbers, T, SPOTS0, SPOTS1, SPOTS2, SPOTS3, NUMBERS0, NUMBERS1, NUMBERS2, NUMBERS3;
    Chained0();
    Chained1();
    Chained2();
    Chained3();
    Numbers0();
    Numbers1();
    Numbers2();
    Numbers3();
  }

  lemma RowsMeet()
    ensures Spots(0)[..1] == [Spot(UNIT, 0, 0)]
    ensures |Spots(0)| == |Spots(1)| == |Spots(2)| == |Spots(3)| == 17
    ensures Spots(1)[0] == Spots(0)[16] && Spots(2)[0] == Spots(1)[16] && Spots(3)[0] == Spots(2)[16]
  {
  }

  /** Turn n: the spot before it, the spot behind it and its constant. */
  lemma LinkOf(n: nat)
    requires n < 64
    ensures |T| == 4 && |T[n / 16]| == 16 && |Spots(n / 16)| == 17
    ensures Links(Spots(n / 16)[n % 16], Spots(n / 16)[n % 16 + 1], T[n / 16][n % 16] as int)
  {
    hide Spots, Numbers, Links, T;
    RowOf(n / 16);
  }

  function SpotAt(n: nat): Spot
    requires n <= 64
  {
    RowsMeet();
    if n == 64 then Spots(3)[16] else Spots(n / 16)[n % 16]
  }

  lemma NextSpot(n: nat)
    requires n < 64
    ensures |Spots(n / 16)| == 17 && SpotAt(n + 1) == Spots(n / 16)[n % 16 + 1] && SpotAt(n) == Spots(n / 16)[n % 16]
    ensures SpotAt(0) == Spot(UNIT, 0, 0)
  {
    hide Spots;
    RowsMeet();
    assert Spots(0)[0] == Spots(0)[..1][0];
  }

  /** The constants of the first n turns. */
  ghost predicate GivenUpTo(n: nat, c: real, s: real)
    requires n <= 64
  {
    |T| == 4 && forall k: nat :: k < n ==> |T[k / 16]| == 16 && IntegerPart(T[k / 16][k % 16], Turned(k + 1, c, s).y)
  }

  /** Turn by turn through the rows of spots. */
  lemma AllTurns(c: real, s: real)
    requires Within(c, COS, 1) && Within(s, SIN, 1)
    ensures GivenUpTo(64, c, s)
  {
    hide Within, Gives, Follows, IntegerPart, Times, Turn, SpotAt, Spots, T;
    var n: nat := 0;
    AtStart(c, s);
    while n < 64
      invariant n <= 64 && GivenUpTo(n, c, s) && Near(Turned(n, c, s), SpotAt(n))
    {
      var p, q, t := SpotAt(n), SpotAt(n + 1), TurnGiven(n);
      var here := Turned(n, c, s);
      Bounds(p, q, t as int);
      Opposite(here.x, p.x, p.off, s);
      Coordinate(here.x, p.x, here.y, p.y, c, s, q.x, p.off);
      Coordinate(here.y, p.y, -here.x, -p.x, c, s, q.y, p.off);
      TurnInProducts(here, c, s);
      PartGiven(Turned(n + 1, c, s).y, q, t);
      n := n + 1;
    }
  }

  function TurnGiven(n: nat): (t: bv32)
    requires n < 64
    ensures |T| == 4 && |T[n / 16]| == 16 && t == T[n / 16][n % 16]
    ensures Links(SpotAt(n), SpotAt(n + 1), t as int)
  {
    LinkOf(n);
    NextSpot(n);
    T[n / 16][n % 16]
  }

  lemma AtStart(c: real, s: real)
    ensures |T| == 4 && Near(Turned(0, c, s), SpotAt(0))
  {
    NextSpot(0);
    hide SpotAt, Spots;
  }

  lemma Bounds(p: Spot, q: Spot, t: nat)
    requires Links(p, q, t)
    ensures -UNIT <= p.x <= UNIT && -UNIT <= p.y <= UNIT && q.off == 2 * p.off + 4 && Gives(q, t)
    ensures -UNIT <= p.x * COS - p.y * SIN - q.x * UNIT <= UNIT
    ensures -UNIT <= p.y * COS + p.x * SIN - q.y * UNIT <= UNIT
  {
  }

  /** Constant i of a round of the program is the integer part of 2^32 times the absolute value of the sine of
      16 * round + i + 1 radians: that many turns by one radian, whose sine and cosine are given by their series. */
  lemma SineConstants(round: nat, i: nat, c: real, s: real)
    requires round < 4 && i < 16 && LikeCosineOfOne(c) && LikeSineOfOne(s)
    ensures |T| == 4 && |T[round]| == 16 && IntegerPart(T[round][i], Turned(16 * round + i + 1, c, s).y)
  {
    hide Within, LikeCosineOfOne, LikeSineOfOne, IntegerPart, Turned, T;
    OneRadian(c, s);
    AllTurns(c, s);
    var k := 16 * round + i;
    assert k / 16 == round && k % 16 == i;
  }

  /** There are such numbers: the partial sums are. */
  lemma PartialSums() returns (c: real, s: real)
    ensures LikeCosineOfOne(c) && LikeSineOfOne(s)
  {
    hide Factorial, SineTerms, CosineTerms;
    c := CosineTerms(TERMS) as real / Factorial(2 * TERMS) as real;
    s := SineTerms(TERMS) as real / Factorial(2 * TERMS + 1) as real;
    Quotient(CosineTerms(TERMS), Factorial(2 * TERMS));
    Quotient(SineTerms(TERMS), Factorial(2 * TERMS + 1));
  }

  lemma Quotient(a: int, b: nat)
    requires b > 0
    ensures a as real / b as real * b as real == a as real
  {
  }
}
