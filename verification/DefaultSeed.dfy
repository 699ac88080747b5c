/** The words of the start vector for the default seed, up to the one that the first output needs. */
module DefaultSeed {
  import opened Arith
  import opened Bits
  import opened Limb
  import opened LimbLogic
  import opened MersenneTwister

  /** Exclusive or of two numbers below 4. */
  function SmallXor(low: int, top: int): (r: int) {
    if top == 0 then low
    else if top == 1 then if low == 0 then 1 else if low == 1 then 0 else if low == 2 then 3 else 2
    else if top == 2 then if low < 2 then low + 2 else low - 2
    else 3 - low
  }

  lemma {:induction false} SmallXorIs(low: int, top: int)
    requires 0 <= low < 4 && 0 <= top < 4
    ensures Bitwise(XOR, low, top) == SmallXor(low, top)
  {
    BitwiseStep(XOR, low, top);
    BitwiseStep(XOR, low / 2, top / 2);
    assert Bitwise(XOR, 0, 0) == 0;
  }

  lemma {:induction false} XorTop(h: int, low: int, top: int)
    requires 0 <= low < 4 && 0 <= top < 4
    ensures Bitwise(XOR, 4 * h + low, top) == 4 * h + SmallXor(low, top)
  {
    assert Pow2(2) == 4;
    SplitsMeaning(4 * h + low, 2, h, low);
    SplitsMeaning(top, 2, 0, top);
    BitwiseSplit(XOR, 2, 4 * h + low, h, low, top, 0, top);
    XorZero(h);
    SmallXorIs(low, top);
    SplitsMeaning(Bitwise(XOR, 4 * h + low, top), 2, h, SmallXor(low, top));
  }

  /** Word k - 1 is 4 h + low, with upper two bits top; then word k is next, where q counts the wrap-arounds. */
  lemma {:induction false} NextSeed(seed: Limb, k: nat, h: int, low: int, top: int, q: int, next: int)
    requires k > 0 && SeedWord(seed, k - 1) == 4 * h + low && 0 <= low < 4 && 0 <= top < 4
    requires top * 0x4000_0000_0000_0000 <= 4 * h + low < (top + 1) * 0x4000_0000_0000_0000
    requires 6364136223846793005 * (4 * h + SmallXor(low, top)) + k == q * 0x1_0000_0000_0000_0000 + next
    requires 0 <= next < 0x1_0000_0000_0000_0000
    ensures SeedWord(seed, k) == next
  {
    hide SeedWord, SmallXor, Bitwise;
    var x := SeedWord(seed, k - 1);
    TopBits(x, top);
    MixedWord(x, h, low, top);
    WrapIs(MULTIPLIER * Xor(x, Right(x, 62)) + k, q, next);
    SeedUnfold(seed, k);
  }

  lemma SeedStart(seed: Limb)
    ensures SeedWord(seed, 0) == seed
  {
  }

  lemma SeedUnfold(seed: Limb, k: nat)
    requires k > 0
    ensures var prev := SeedWord(seed, k - 1);
            SeedWord(seed, k) == Wrap(MULTIPLIER * Xor(prev, Right(prev, 62)) + k)
  {
    hide Xor, Right, Wrap;
  }

  lemma {:induction false} MixedWord(x: Limb, h: int, low: int, top: int)
    requires x == 4 * h + low && 0 <= low < 4 && 0 <= top < 4 && Right(x, 62) == top
    ensures Xor(x, Right(x, 62)) == 4 * h + SmallXor(low, top)
  {
    hide Bitwise, Right, SmallXor;
    XorTop(h, low, top);
  }

  lemma {:induction false} TopBits(x: Limb, top: int)
    requires 0 <= top < 4 && top * 0x4000_0000_0000_0000 <= x < (top + 1) * 0x4000_0000_0000_0000
    ensures Right(x, 62) == top
  {
    Pow2Values();
    assert Pow2(63) == 2 * Pow2(62);
    RightIsShr(x, 62);
    hide Pow2, Right;
    DivModUnique(x, 0x4000_0000_0000_0000, top, x - top * 0x4000_0000_0000_0000);
  }

  lemma WrapIs(x: int, q: int, r: int)
    requires x == q * 0x1_0000_0000_0000_0000 + r && 0 <= r < 0x1_0000_0000_0000_0000
    ensures Wrap(x) == r
  {
  }

  // ---- the words ----

  lemma {:induction false} Word26()
    ensures SeedWord(5489, 26) == 12922380697022943828
  {
    hide SeedWord;
    SeedStart(5489);
    NextSeed(5489, 1, 1372, 1, 0, 1893, 13057201162865595358);
    NextSeed(5489, 2, 3264300290716398839, 2, 2, 4504741138631563110, 10476979627314799022);
    NextSeed(5489, 3, 2619244906828699755, 2, 2, 3614563377486625275, 15076282145854160703);
    NextSeed(5489, 4, 3769070536463540175, 3, 3, 5201325119597137645, 4028258760921719184);
    NextSeed(5489, 5, 1007064690230429796, 0, 0, 1389751351077033557, 16400131027729929813);
    NextSeed(5489, 6, 4100032756932482453, 1, 3, 5658053666942913135, 681049467949274916);
    NextSeed(5489, 7, 170262366987318729, 0, 0, 234962417860224627, 1166424544479915355);
    NextSeed(5489, 8, 291606136119978838, 3, 0, 402417069714126372, 12669671669325274631);
    NextSeed(5489, 9, 3167417917331318657, 3, 2, 4371043263397096449, 3923681680445358570);
    NextSeed(5489, 10, 980920420111339642, 2, 0, 1353672204351499225, 10843524099671305260);
    NextSeed(5489, 11, 2710881024917826315, 0, 2, 3741021409584522118, 9320087349666649633);
    NextSeed(5489, 12, 2330021837416662408, 1, 2, 3215434944748054651, 18036750184230437171);
    NextSeed(5489, 13, 4509187546057609292, 3, 3, 6222688120421939570, 15162073532206564733);
    NextSeed(5489, 14, 3790518383051641183, 1, 3, 5230923192156593625, 6406996757156837684);
    NextSeed(5489, 15, 1601749189289209421, 0, 1, 2210417187193680656, 8927855092125653344);
    NextSeed(5489, 16, 2231963773031413336, 0, 1, 3080114613506754941, 7287101680298317085);
    NextSeed(5489, 17, 1821775420074579271, 1, 1, 2514053839806719855, 14285962336228661757);
    NextSeed(5489, 18, 3571490584057165439, 1, 3, 4928664377475729220, 16767098162355983288);
    NextSeed(5489, 19, 4191774540588995822, 0, 3, 5784657517741895146, 3083970833968823538);
    NextSeed(5489, 20, 770992708492205884, 2, 0, 1063971529030983967, 16292429955202811038);
    NextSeed(5489, 21, 4073107488800702759, 2, 3, 5620896741347904772, 2462140788281684654);
    NextSeed(5489, 22, 615535197070421163, 2, 0, 849439842408087677, 14987206012938009260);
    NextSeed(5489, 23, 3746801503234502315, 0, 3, 5170593807778277915, 1755961132248244698);
    NextSeed(5489, 24, 438990283062061174, 2, 0, 605807496691789302, 11853308388629125482);
    NextSeed(5489, 25, 2963327097157281370, 2, 2, 4089397510318027969, 15567715879394119521);
    NextSeed(5489, 26, 3891928969848529880, 1, 3, 5370870011245487438, 12922380697022943828);
  }

  lemma {:induction false} Word52()
    ensures SeedWord(5489, 52) == 13806268603918059639
  {
    hide SeedWord;
    Word26();
    NextSeed(5489, 27, 3230595174255735957, 0, 2, 4458228008349240341, 10568493380422968121);
    NextSeed(5489, 28, 2642123345105742030, 1, 2, 3646135669529529516, 6468114481096881787);
    NextSeed(5489, 29, 1617028620274220446, 3, 1, 2231502833489400349, 6912714088192792975);
    NextSeed(5489, 30, 1728178522048198243, 3, 1, 2384889927348405827, 11676810063224680468);
    NextSeed(5489, 31, 2919202515806170117, 0, 2, 4028505496981343503, 7989628851951361533);
    NextSeed(5489, 32, 1997407212987840383, 1, 1, 2756426076527120223, 9980521080467753324);
    NextSeed(5489, 33, 2495130270116938331, 0, 2, 3443284922654554886, 11628798235400288887);
    NextSeed(5489, 34, 2907199558850072221, 3, 2, 4011941391608093185, 3042835494701912499);
    NextSeed(5489, 35, 760708873675478124, 3, 0, 1049779815758294158, 10149139922063010202);
    NextSeed(5489, 36, 2537284980515752550, 2, 2, 3501458510011299773, 258211445411067868);
    NextSeed(5489, 37, 64552861352766967, 0, 0, 89083081902483265, 12292608484108957137);
    NextSeed(5489, 38, 3073152121027239284, 1, 2, 4240956269934967591, 5167437948048335677);
    NextSeed(5489, 39, 1291859487012083919, 1, 1, 1782768758445819474, 11526653342107776435);
    NextSeed(5489, 40, 2881663335526944108, 3, 2, 3976701350715981482, 9186605994989076293);
    NextSeed(5489, 41, 2296651498747269073, 1, 1, 3169383808508657744, 4106436007230823197);
    NextSeed(5489, 42, 1026609001807705799, 1, 0, 1416722541392697260, 1482400223179564867);
    NextSeed(5489, 43, 370600055794891216, 3, 0, 511428841907192321, 18329651462931014642);
    NextSeed(5489, 44, 4582412865732753660, 2, 3, 6323739212709064036, 12828698185960104073);
    NextSeed(5489, 45, 3207174546490026018, 1, 2, 4425907493692907724, 9435381729478913436);
    NextSeed(5489, 46, 2358845432369728359, 0, 2, 3255211565274542232, 10988179007923054324);
    NextSeed(5489, 47, 2747044751980763581, 0, 2, 3790927427572500938, 16279301207772373869);
    NextSeed(5489, 48, 4069825301943093467, 1, 3, 5616367316710043542, 213769070704315526);
    NextSeed(5489, 49, 53442267676078881, 2, 0, 73750439696636375, 2960748844084063679);
    NextSeed(5489, 50, 740187211021015919, 3, 0, 1021459878938882691, 10067976150718286789);
    NextSeed(5489, 51, 2516994037679571697, 1, 2, 3473456967017317127, 9138367034755369774);
    NextSeed(5489, 52, 2284591758688842443, 2, 1, 3152741342336994718, 13806268603918059639);
  }

  lemma {:induction false} Word78()
    ensures SeedWord(5489, 78) == 9226632414975219865
  {
    hide SeedWord;
    Word52();
    NextSeed(5489, 53, 3451567150979514909, 3, 2, 4763169792309282607, 1680185388186896326);
    NextSeed(5489, 54, 420046347046724081, 2, 0, 579664825890763054, 10291061633078204420);
    NextSeed(5489, 55, 2572765408269551105, 0, 2, 3550421573542352651, 14465151537550734149);
    NextSeed(5489, 56, 3616287884387683537, 1, 3, 4990484744392472090, 15488623881140223366);
    NextSeed(5489, 57, 3872155970285055841, 2, 3, 5343583231036863548, 3741484074564668314);
    NextSeed(5489, 58, 935371018641167078, 2, 0, 1290813936309713229, 1918677755306815564);
    NextSeed(5489, 59, 479669438826703891, 0, 0, 661944815607865689, 7317293401479426455);
    NextSeed(5489, 60, 1829323350369856613, 3, 1, 2524469999192962229, 4481774452245242266);
    NextSeed(5489, 61, 1120443613061310566, 2, 0, 1546214498595214843, 13177439052661313103);
    NextSeed(5489, 62, 3294359763165328275, 3, 2, 4546223272653165864, 14190197572724422343);
    NextSeed(5489, 63, 3547549393181105585, 3, 3, 4895625484652683080, 11391962132027874483);
    NextSeed(5489, 64, 2847990533006968620, 3, 2, 3930232813738502568, 14461854875984255581);
    NextSeed(5489, 65, 3615463718996063895, 1, 3, 4989347394450978014, 78864998355633351);
    NextSeed(5489, 66, 19716249588908337, 3, 0, 27208465126592541, 13375647221931413565);
    NextSeed(5489, 67, 3343911805482853391, 1, 2, 4614605193325659743, 13091373515385904214);
    NextSeed(5489, 68, 3272843378846476053, 2, 2, 4516530617883812863, 6049165922138400520);
    NextSeed(5489, 69, 1512291480534600130, 0, 1, 2086965364473605884, 11416142809731847130);
    NextSeed(5489, 70, 2854035702432961782, 2, 2, 3938575160023467883, 18197073924412990782);
    NextSeed(5489, 71, 4549268481103247695, 2, 3, 6277999893511075795, 829354708239552256);
    NextSeed(5489, 72, 207338677059888064, 0, 0, 286127802285046663, 7594476051345711944);
    NextSeed(5489, 73, 1898619012836427986, 0, 1, 2620098156421531202, 10772269459197422366);
    NextSeed(5489, 74, 2693067364799355591, 2, 2, 3716438521854035679, 9316238444709656630);
    NextSeed(5489, 75, 2329059611177414157, 2, 2, 3214107070551878586, 820820292010192239);
    NextSeed(5489, 76, 205205073002548059, 3, 0, 283183424282206310, 10370107716384591311);
    NextSeed(5489, 77, 2592526929096147827, 3, 2, 3577692513070393987, 8321593491012460630);
    NextSeed(5489, 78, 2080398372753115157, 2, 1, 2870954048295100598, 9226632414975219865);
  }

  lemma {:induction false} Word104()
    ensures SeedWord(5489, 104) == 14253271084513918446
  {
    hide SeedWord;
    Word78();
    NextSeed(5489, 79, 2306658103743804966, 1, 2, 3183192944057286618, 1121855342335555726);
    NextSeed(5489, 80, 280463835583888931, 2, 0, 387040671976862718, 2523212579397444422);
    NextSeed(5489, 81, 630803144849361105, 2, 0, 870509641855728194, 15150453816516406687);
    NextSeed(5489, 82, 3787613454129101671, 3, 3, 5226914384247780647, 4357348246254069950);
    NextSeed(5489, 83, 1089337061563517487, 2, 0, 1503287393325032479, 1475811360713763769);
    NextSeed(5489, 84, 368952840178440942, 1, 0, 509155680956674680, 14612290868631353049);
    NextSeed(5489, 85, 3653072717157838262, 1, 3, 5041247889538359319, 13002835200640305831);
    NextSeed(5489, 86, 3250708800160076457, 3, 2, 4485984853611305111, 8841644283678816855);
    NextSeed(5489, 87, 2210411070919704213, 3, 1, 3050371840108300303, 9422668006636366709);
    NextSeed(5489, 88, 2355667001659091677, 1, 2, 3250825324333653575, 9762262470164229443);
    NextSeed(5489, 89, 2440565617541057360, 3, 2, 3367985589479614248, 15759907042128835526);
    NextSeed(5489, 90, 3939976760532208881, 2, 3, 5437176061558531884, 5472764997485778171);
    NextSeed(5489, 91, 1368191249371444542, 3, 1, 1888106748048790729, 7662827925729932877);
    NextSeed(5489, 92, 1915706981432483219, 1, 1, 2643679588353273159, 17501417670658457528);
    NextSeed(5489, 93, 4375354417664614382, 0, 3, 6037998127011017082, 3930325588003666236);
    NextSeed(5489, 94, 982581397000916559, 0, 0, 1355964355887334593, 5474808447603626986);
    NextSeed(5489, 95, 1368702111900906746, 2, 1, 1888811739393857428, 6720003803709822382);
    NextSeed(5489, 96, 1680000950927455595, 2, 1, 2318404779764349624, 1855653125818638627);
    NextSeed(5489, 97, 463913281454659656, 3, 0, 640201285914087546, 17923060195536629896);
    NextSeed(5489, 98, 4480765048884157474, 0, 3, 6183465015659176358, 1006421872699162065);
    NextSeed(5489, 99, 251605468174790516, 1, 0, 347216065389280763, 8593337867538992416);
    NextSeed(5489, 100, 2148334466884748104, 0, 1, 2964705998415335849, 4799988366622961201);
    NextSeed(5489, 101, 1199997091655740300, 1, 1, 1655998463252131862, 13724225912419217109);
    NextSeed(5489, 102, 3431056478104804277, 1, 2, 4734865021408610971, 11153468036382729521);
    NextSeed(5489, 103, 2788367009095682380, 1, 2, 3847952227679305151, 3227521569234212702);
    NextSeed(5489, 104, 806880392308553175, 2, 0, 1113496606768921523, 14253271084513918446);
  }

  lemma {:induction false} Word130()
    ensures SeedWord(5489, 130) == 6135238878624366372
  {
    hide SeedWord;
    Word104();
    NextSeed(5489, 105, 3563317771128479611, 2, 3, 4917385878765639330, 12720552637491820050);
    NextSeed(5489, 106, 3180138159372955012, 2, 2, 4388597223668850245, 3131078640163418426);
    NextSeed(5489, 107, 782769660040854606, 2, 0, 1080223746475484309, 13204035025191316893);
    NextSeed(5489, 108, 3301008756297829223, 1, 2, 4555398896899390577, 1242013424098797151);
    NextSeed(5489, 109, 310503356024699287, 3, 0, 428495272186080642, 10309732291143311392);
    NextSeed(5489, 110, 2577433072785827848, 0, 2, 3556862960208769924, 14812467554029601896);
    NextSeed(5489, 111, 3703116888507400474, 0, 3, 5110308949290807727, 6588807180369779774);
    NextSeed(5489, 112, 1647201795092444943, 2, 1, 2273141877015309439, 15873501535677970563);
    NextSeed(5489, 113, 3968375383919492640, 3, 3, 5476366220447108214, 11172284785033359089);
    NextSeed(5489, 114, 2793071196258339772, 1, 2, 3854444015673109646, 12301618027847470633);
    NextSeed(5489, 115, 3075404506961867658, 1, 2, 4244064567173629037, 11068608208873034498);
    NextSeed(5489, 116, 2767152052218258624, 2, 2, 3818675543401262942, 11428326129399486324);
    NextSeed(5489, 117, 2857081532349871581, 0, 2, 3942778411595328365, 5094087545013561907);
    NextSeed(5489, 118, 1273521886253390476, 3, 1, 1757462831550423899, 500288200114796864);
    NextSeed(5489, 119, 125072050028699216, 0, 0, 172599687185524257, 2634392864069587127);
    NextSeed(5489, 120, 658598216017396781, 3, 0, 908866897436023863, 10024792545775434147);
    NextSeed(5489, 121, 2506198136443858536, 3, 2, 3458558601029533805, 10356221529759776966);
    NextSeed(5489, 122, 2589055382439944241, 2, 2, 3572901771519638233, 11136380342514802414);
    NextSeed(5489, 123, 2784095085628700603, 2, 2, 3842056964477715622, 340782545860183031);
    NextSeed(5489, 124, 85195636465045757, 3, 0, 117570154163655030, 7508198866667469799);
    NextSeed(5489, 125, 1877049716666867449, 3, 1, 2590332483188991848, 7289875136835936747);
    NextSeed(5489, 126, 1822468784208984186, 3, 1, 2515010683743286734, 17690097813874199712);
    NextSeed(5489, 127, 4422524453468549928, 0, 3, 6103092873778349082, 2626238110689777190);
    NextSeed(5489, 128, 656559527672444297, 2, 0, 906053503312182199, 16717695660713672494);
    NextSeed(5489, 129, 4179423915178418123, 2, 3, 5767613629183882770, 3595834123325255274);
    NextSeed(5489, 130, 898958530831313818, 2, 0, 1240564627977553708, 6135238878624366372);
  }

  lemma {:induction false} Word156()
    ensures SeedWord(5489, 156) == 2619718836853156863
  {
    hide SeedWord;
    Word130();
    NextSeed(5489, 131, 1533809719656091593, 0, 1, 2116660578874429309, 9938504311934907652);
    NextSeed(5489, 132, 2484626077983726913, 0, 2, 3428789115830305046, 11347072173565906066);
    NextSeed(5489, 133, 2836768043391476516, 2, 2, 3914745754906155412, 9372835856550536661);
    NextSeed(5489, 134, 2343208964137634165, 1, 2, 3233633206840930859, 2901728271276724305);
    NextSeed(5489, 135, 725432067819181076, 1, 0, 1001097750866064410, 9858149244111900100);
    NextSeed(5489, 136, 2464537311027975025, 0, 2, 3401066575968600875, 16544617798517122646);
    NextSeed(5489, 137, 4136154449629280661, 2, 3, 5707901677418862061, 11622889926249457786);
    NextSeed(5489, 138, 2905722481562364446, 2, 2, 4009903021902401905, 9979924837559772578);
    NextSeed(5489, 139, 2494981209389943144, 2, 2, 3443079218543643514, 14196945190861012395);
    NextSeed(5489, 140, 3549236297715253098, 3, 3, 4897953416391539951, 2223272152803307284);
    NextSeed(5489, 141, 555818038200826821, 0, 0, 767030039913164614, 5190516807419032337);
    NextSeed(5489, 142, 1297629201854758084, 1, 1, 1790730976837272463, 3235768569839659614);
    NextSeed(5489, 143, 808942142459914903, 2, 0, 1116341826233206997, 7682633656132343061);
    NextSeed(5489, 144, 1920658414033085765, 1, 1, 2650512575561751032, 13733309948923027732);
    NextSeed(5489, 145, 3433327487230756933, 0, 2, 4737999018689737777, 16911272487285603183);
    NextSeed(5489, 146, 4227818121821400795, 3, 3, 5834397734235761088, 16702635121049437838);
    NextSeed(5489, 147, 4175658780262359459, 2, 3, 5762417735228567394, 6161415984776321628);
    NextSeed(5489, 148, 1540353996194080407, 0, 1, 2125691694004094562, 12717629078983493101);
    NextSeed(5489, 149, 3179407269745873275, 1, 2, 4387588594474937574, 2358424909955325080);
    NextSeed(5489, 150, 589606227488831270, 0, 0, 813657810868679207, 12297813174132617038);
    NextSeed(5489, 151, 3074453293533154259, 2, 2, 4242751890678721262, 9911119942162973939);
    NextSeed(5489, 152, 2477779985540743484, 3, 2, 3419341494128805933, 14656296979938373109);
    NextSeed(5489, 153, 3664074244984593277, 1, 3, 5056430020646189093, 5179190586448371415);
    NextSeed(5489, 154, 1294797646612092853, 3, 1, 1786823424758127631, 11090893096306857528);
    NextSeed(5489, 155, 2772723274076714382, 0, 2, 3826363841064809441, 11656051587341971149);
    NextSeed(5489, 156, 2914012896835492787, 1, 2, 4021343812090551078, 2619718836853156863);
  }
}
