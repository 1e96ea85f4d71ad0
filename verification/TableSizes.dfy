// The sizes of server/hashmap.c.
module TableSizes {
  import opened Common
  import opened Primality

  // The next size is enough larger that a rehash neither grows again nor fills half the slots.
  lemma NextSize(i: nat)
    requires i + 1 < |SIZES|
    ensures 13 * SIZES[i] + 20 <= 13 * SIZES[i + 1]
    ensures 13 * SIZES[i] + 20 < 10 * (SIZES[i + 1] + 1)
  {
  }

  // The sizes whose half (rounded up) is at most the last offset with an int square.
  const SMALL := 11

  lemma Prime53()
    ensures Prime(53)
  {
    TrialDivision(53, 8);
  }

  lemma Prime97()
    ensures Prime(97)
  {
    TrialDivision(97, 10);
  }

  lemma Prime193()
    ensures Prime(193)
  {
    TrialDivision(193, 14);
  }

  lemma Prime389()
    ensures Prime(389)
  {
    TrialDivision(389, 20);
  }

  lemma Prime769()
    ensures Prime(769)
  {
    TrialDivision(769, 28);
  }

  lemma Prime1543()
    ensures Prime(1543)
  {
    TrialDivision(1543, 40);
  }

  lemma Prime3079()
    ensures Prime(3079)
  {
    TrialDivision(3079, 56);
  }

  lemma Prime6151()
    ensures Prime(6151)
  {
    TrialDivision(6151, 79);
  }

  lemma Prime12289()
    ensures Prime(12289)
  {
    TrialDivision(12289, 111);
  }

  lemma Prime24593()
    ensures Prime(24593)
  {
    TrialDivision(24593, 157);
  }

  lemma Prime49157()
    ensures Prime(49157)
  {
    TrialDivision(49157, 222);
  }

  lemma SmallSizePrime(i: nat)
    requires i < SMALL
    ensures Prime(SIZES[i])
  {
    hide Prime;
    match i {
      case 0 => Prime53();
      case 1 => Prime97();
      case 2 => Prime193();
      case 3 => Prime389();
      case 4 => Prime769();
      case 5 => Prime1543();
      case 6 => Prime3079();
      case 7 => Prime6151();
      case 8 => Prime12289();
      case 9 => Prime24593();
      case 10 => Prime49157();
    }
  }

  lemma SizeOdd(i: nat)
    requires i < |SIZES|
    ensures SIZES[i] >= 53 && SIZES[i] % 2 == 1 && (i < SMALL <==> SIZES[i] < 92682)
  {
  }
}
