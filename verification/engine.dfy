/**
 * The machine catalogue loader of the calculation engine: the CSV header
 * normaliser, the table from normalised headers to machine fields, and the
 * conversion of one CSV row into the keyword arguments of a machine record.
 */
module Engine {
  import opened Wrappers
  import opened Text

  // ---------------------------------------------------------------------------
  // _norm

  /** The characters the normaliser deletes after lower-casing. */
  const DeletedChars: set<char> := {' ', '\U{A0}', '_', '[', ']', '-'}

  /** `s.replace(c, "")`: the characters other than c, in their order. */
  function RemoveChar(s: string, c: char): string
  {
    Keep(s, {c})
  }

  /** The characters of s not in gone, in their original order. */
  function Keep(s: string, gone: set<char>): (r: string)
    ensures |r| <= |s|
    ensures forall i :: 0 <= i < |r| ==> r[i] !in gone
  {
    if s == [] then [] else (if s[0] in gone then [] else [s[0]]) + Keep(s[1..], gone)
  }

  /** The replaces `.replace(c, "")` for each c of cs, one after another, in order. */
  function RemoveAll(s: string, cs: seq<char>): string
    decreases |cs|
  {
    if cs == [] then s else RemoveAll(RemoveChar(s, cs[0]), cs[1..])
  }

  /**
   * `_norm`: strip, lower-case, then delete spaces, no-break spaces,
   * underscores, brackets and hyphens, one replace after another.
   */
  function Norm(s: string): string
  {
    RemoveAll(Lower(Strip(s)), [' ', '\U{A0}', '_', '[', ']', '-'])
  }

  /** Filtering twice is filtering once by both sets. */
  lemma {:induction false} KeepKeep(s: string, g1: set<char>, g2: set<char>)
    ensures Keep(Keep(s, g1), g2) == Keep(s, g1 + g2)
  {
    if s != [] {
      var head := if s[0] in g1 then [] else [s[0]];
      assert Keep(s, g1) == head + Keep(s[1..], g1);
      KeepConcat(head, Keep(s[1..], g1), g2);
      KeepKeep(s[1..], g1, g2);
      assert Keep(head, g2) == if s[0] in g1 + g2 then [] else [s[0]] by {
        if head != [] {
          assert head[1..] == [];
        }
      }
    }
  }

  /** The characters of a list, as a set. */
  function Chars(cs: seq<char>): set<char>
    decreases |cs|
  {
    if cs == [] then {} else {cs[0]} + Chars(cs[1..])
  }

  /** A run of replaces after a filter is the filter with the replaced characters added. */
  lemma {:induction false} RemoveAllAfterKeep(s: string, gone: set<char>, cs: seq<char>)
    decreases |cs|
    ensures RemoveAll(Keep(s, gone), cs) == Keep(s, gone + Chars(cs))
  {
    if cs == [] {
      assert gone + Chars(cs) == gone;
    } else {
      KeepKeep(s, gone, {cs[0]});
      RemoveAllAfterKeep(s, gone + {cs[0]}, cs[1..]);
      assert (gone + {cs[0]}) + Chars(cs[1..]) == gone + Chars(cs);
    }
  }

  lemma {:induction false} KeepNothing(s: string)
    ensures Keep(s, {}) == s
  {
    if s != [] {
      KeepNothing(s[1..]);
    }
  }

  /**
   * The six replaces together are one filter: the normal form is the stripped,
   * lower-cased header with exactly the deleted characters left out, the
   * remaining characters in their order.
   */
  lemma NormIsFilter(s: string)
    ensures Norm(s) == Keep(Lower(Strip(s)), DeletedChars)
  {
    var t := Lower(Strip(s));
    KeepNothing(t);
    RemoveAllAfterKeep(t, {}, [' ', '\U{A0}', '_', '[', ']', '-']);
    assert {} + Chars([' ', '\U{A0}', '_', '[', ']', '-']) == DeletedChars;
  }

  /** No space, no-break space, underscore, bracket or hyphen survives normalisation. */
  lemma NormHasNoDeleted(s: string)
    ensures forall i :: 0 <= i < |Norm(s)| ==> Norm(s)[i] !in DeletedChars
  {
    NormIsFilter(s);
  }

  lemma {:induction false} KeepConcat(a: string, b: string, gone: set<char>)
    ensures Keep(a + b, gone) == Keep(a, gone) + Keep(b, gone)
  {
    if a == [] {
      assert a + b == b;
    } else {
      var c, t := a[0], a[1..];
      var head := if c in gone then [] else [c];
      calc {
        Keep(a + b, gone);
        { assert a + b == [c] + (t + b); }
        Keep([c] + (t + b), gone);
        { KeepCons(c, t + b, gone); }
        head + Keep(t + b, gone);
        { KeepConcat(t, b, gone); }
        head + (Keep(t, gone) + Keep(b, gone));
        (head + Keep(t, gone)) + Keep(b, gone);
        { assert a == [c] + t; KeepCons(c, t, gone); }
        Keep(a, gone) + Keep(b, gone);
      }
    }
  }

  /** Filtering a string that starts with c: c kept or dropped, then the rest filtered. */
  lemma KeepCons(c: char, t: string, gone: set<char>)
    ensures Keep([c] + t, gone) == (if c in gone then [] else [c]) + Keep(t, gone)
  {
    assert ([c] + t)[0] == c && ([c] + t)[1..] == t;
  }

  lemma KeepTwice(s: string, gone: set<char>)
    ensures Keep(Keep(s, gone), gone) == Keep(s, gone)
  {
    KeepKeep(s, gone, gone);
    assert gone + gone == gone;
  }

  /** Lower-casing never makes or unmakes whitespace, so it commutes with strip. */
  lemma {:induction false} TrimStartLower(s: string)
    ensures TrimStart(Lower(s)) == Lower(TrimStart(s))
  {
    if s != [] {
      assert Lower(s)[1..] == Lower(s[1..]);
      TrimStartLower(s[1..]);
    }
  }

  lemma {:induction false} TrimEndLower(s: string)
    ensures TrimEnd(Lower(s)) == Lower(TrimEnd(s))
  {
    if s != [] {
      assert Lower(s)[..|s| - 1] == Lower(s[..|s| - 1]);
      TrimEndLower(s[..|s| - 1]);
    }
  }

  lemma StripLower(s: string)
    ensures Strip(Lower(s)) == Lower(Strip(s))
  {
    TrimStartLower(s);
    TrimEndLower(TrimStart(s));
  }

  /** Headers that differ only in letter case normalise alike. */
  lemma NormIgnoresCase(a: string, b: string)
    requires Lower(a) == Lower(b)
    ensures Norm(a) == Norm(b)
  {
    NormIsFilter(a);
    NormIsFilter(b);
    StripLower(a);
    StripLower(b);
  }

  /** strip() leaves a string alone whose ends are not whitespace. */
  lemma StripKeepsTrimmed(s: string)
    requires s == [] || (!IsSpace(s[0]) && !IsSpace(s[|s| - 1]))
    ensures Strip(s) == s
  {
  }

  /**
   * A space, underscore, bracket or hyphen inside a header (between two
   * characters that strip keeps) does not change its normal form.
   */
  lemma NormIgnoresInnerDeleted(a: string, c: char, b: string)
    requires c in DeletedChars
    requires |a| > 0 && !IsSpace(a[0]) && |b| > 0 && !IsSpace(b[|b| - 1])
    ensures Norm(a + [c] + b) == Norm(a + b)
  {
    var long, short := a + [c] + b, a + b;
    assert long[0] == a[0] && long[|long| - 1] == b[|b| - 1];
    assert short[0] == a[0] && short[|short| - 1] == b[|b| - 1];
    StripKeepsTrimmed(long);
    StripKeepsTrimmed(short);
    NormIsFilter(long);
    NormIsFilter(short);
    FilterSkipsDeleted(a, c, b);
  }

  lemma FilterSkipsDeleted(a: string, c: char, b: string)
    requires c in DeletedChars
    ensures Keep(Lower(a + [c] + b), DeletedChars) == Keep(Lower(a + b), DeletedChars)
  {
    LowerConcat(a + [c], b);
    LowerConcat(a, [c]);
    LowerConcat(a, b);
    LowerDeleted(c);
    KeepConcat(Lower(a) + [c], Lower(b), DeletedChars);
    KeepConcat(Lower(a), [c], DeletedChars);
    KeepConcat(Lower(a), Lower(b), DeletedChars);
    assert Keep([c], DeletedChars) == [];
  }

  lemma LowerDeleted(c: char)
    requires c in DeletedChars
    ensures Lower([c]) == [c]
  {
  }

  lemma LowerConcat(x: string, y: string)
    ensures Lower(x + y) == Lower(x) + Lower(y)
  {
  }

  lemma {:induction false} LowerTwice(s: string)
    ensures Lower(Lower(s)) == Lower(s)
  {
  }

  /** The deleted characters are not letters, so filtering and lower-casing commute. */
  lemma {:induction false} LowerKeep(s: string)
    ensures Lower(Keep(s, DeletedChars)) == Keep(Lower(s), DeletedChars)
  {
    if s != [] {
      LowerKeep(s[1..]);
      assert Lower(s)[1..] == Lower(s[1..]);
    }
  }

  /**
   * Normalising twice changes nothing when the normal form does not start or
   * end with whitespace the first strip left inside (a tab after a leading
   * underscore, say).
   */
  lemma NormIdempotentWhenTrimmed(s: string)
    requires var k := Norm(s); k == [] || (!IsSpace(k[0]) && !IsSpace(k[|k| - 1]))
    ensures Norm(Norm(s)) == Norm(s)
  {
    var k := Norm(s);
    var t := Lower(Strip(s));
    NormIsFilter(s);
    NormIsFilter(k);
    StripKeepsTrimmed(k);
    LowerKeep(t);
    LowerTwice(Strip(s));
    KeepTwice(Lower(t), DeletedChars);
  }

  /** The exception above: an underscore shields a tab from the first strip but not the second. */
  lemma NormNotIdempotent()
    ensures Norm("_\tx") == "\tx" && Norm("\tx") == "x"
  {
    UnderscoreTabSteps();
    TabSteps();
    NormIsFilter("_\tx");
    NormIsFilter("\tx");
  }

  lemma UnderscoreTabSteps()
    ensures Strip("_\tx") == "_\tx" && Lower("_\tx") == "_\tx" && Keep("_\tx", DeletedChars) == "\tx"
  {
    StripKeepsTrimmed("_\tx");
  }

  lemma TabSteps()
    ensures Strip("\tx") == "x" && Lower("x") == "x" && Keep("x", DeletedChars) == "x"
  {
    TabStrip("\tx");
  }

  lemma TabStrip(s: string)
    requires |s| == 2 && IsSpace(s[0]) && !IsSpace(s[1])
    ensures Strip(s) == s[1..]
  {
    assert TrimStart(s) == TrimStart(s[1..]);
    StripKeepsTrimmed(s[1..]);
  }

  /** A string with no deleted character passes the filter unchanged. */
  lemma {:induction false} KeepClean(s: string, gone: set<char>)
    requires forall i :: 0 <= i < |s| ==> s[i] !in gone
    ensures Keep(s, gone) == s
  {
    if s != [] {
      KeepClean(s[1..], gone);
    }
  }

  // ---------------------------------------------------------------------------
  // HEADER_MAP

  /** The fields of a machine record that the CSV fills. */
  datatype Field =
    | Application | SubApplication | FeedSolidsMinVolPerc | FeedSolidsMaxVolPerc
    | CapacityMinInp | CapacityMaxInp | DriveType | Level | Langtyp | Dmr | ListPrice
    | MotorPowerKw | ProtectionClass | MotorEfficiency | OpWaterSupplyBar | OpWaterLS
    | OpWaterLItEject | LengthMm | WidthMm | HeightMm | TotalWeightKg | BowlWeightKg
    | MotorWeightKg | BowlVolumeLit | EjectionSystem | PowerConsumptionTotalKw

  /**
   * The CSV headers as the loader lists them, with the machine field each
   * feeds. Each header is written as the pieces that the normaliser keeps and
   * the runs of characters it deletes; the pieces join to the listed header.
   */
  const Headers: seq<(string, Field)> := [
    ("Application", Application),
    ("Sub" + " " + "Application", SubApplication),
    ("SEP" + "_" + "SQLFeedSolidsMin" + "_" + "VolPerc", FeedSolidsMinVolPerc),
    ("SEP" + "_" + "SQLFeedSolidsMax" + "_" + "VolPerc", FeedSolidsMaxVolPerc),
    ("SEP" + "_" + "CapacityMinInp", CapacityMinInp),
    ("SEP" + "_" + "CapacityMaxInp", CapacityMaxInp),
    ("SEP" + "_" + "DriveType", DriveType),
    ("SEP" + "_" + "Level", Level),
    ("SEP" + "_" + "SQLLangtyp", Langtyp),
    ("SEP" + "_" + "SQLDMR", Dmr),
    ("Listprice", ListPrice),
    ("SEP" + "_" + "SQLMotorPowerKW", MotorPowerKw),
    ("SEP" + "_" + "SQLProtectionClass", ProtectionClass),
    ("SEP" + "_" + "SQLMotorEfficiency", MotorEfficiency),
    ("SEP" + "_" + "SQLOpWaterSupplyBar", OpWaterSupplyBar),
    ("SEP" + "_" + "SQLOpWaterls", OpWaterLS),
    ("SEP" + "_" + "SQLOpWaterliteject", OpWaterLItEject),
    ("SEP" + "_" + "SQLLength", LengthMm),
    ("SEP" + "_" + "SQLWidth", WidthMm),
    ("SEP" + "_" + "SQLHeigth", HeightMm),
    ("SEP" + "_" + "SQLTotalWeightKg", TotalWeightKg),
    ("SEP" + "_" + "SQLBowlWeightKg", BowlWeightKg),
    ("SEP" + "_" + "SQLMotorWeightKg", MotorWeightKg),
    ("SEP" + "_" + "SQLBowlVolumeLit", BowlVolumeLit),
    ("ejection" + " " + "system", EjectionSystem),
    ("power" + " " + "consumption" + " " + "TOTAL" + " [" + "kW" + "]", PowerConsumptionTotalKw)
  ]

  /** HEADER_MAP in insertion order: each listed header keyed by its normal form. */
  function HeaderMap(): (entries: seq<(string, Field)>)
    ensures |entries| == |Headers|
    ensures forall i :: 0 <= i < |Headers| ==>
      entries[i].1 == Headers[i].1 && entries[i].0 == Norm(Headers[i].0)
    ensures forall i, j :: 0 <= i < j < |entries| ==> entries[i].0 != entries[j].0
  {
    KeysDistinct();
    seq(|Headers|, i requires 0 <= i < |Headers| => (Norm(Headers[i].0), Headers[i].1))
  }

  /** Every field of the record is fed by some listed header. */
  lemma EveryFieldListed(f: Field)
    ensures exists i :: 0 <= i < |Headers| && Headers[i].1 == f
  {
    ListedFrom0();
    ListedFrom5();
    ListedFrom10();
    ListedFrom15();
    ListedFrom20();
    ListedFrom25();
    match f
    case Application => assert Headers[0].1 == f;
    case SubApplication => assert Headers[1].1 == f;
    case FeedSolidsMinVolPerc => assert Headers[2].1 == f;
    case FeedSolidsMaxVolPerc => assert Headers[3].1 == f;
    case CapacityMinInp => assert Headers[4].1 == f;
    case CapacityMaxInp => assert Headers[5].1 == f;
    case DriveType => assert Headers[6].1 == f;
    case Level => assert Headers[7].1 == f;
    case Langtyp => assert Headers[8].1 == f;
    case Dmr => assert Headers[9].1 == f;
    case ListPrice => assert Headers[10].1 == f;
    case MotorPowerKw => assert Headers[11].1 == f;
    case ProtectionClass => assert Headers[12].1 == f;
    case MotorEfficiency => assert Headers[13].1 == f;
    case OpWaterSupplyBar => assert Headers[14].1 == f;
    case OpWaterLS => assert Headers[15].1 == f;
    case OpWaterLItEject => assert Headers[16].1 == f;
    case LengthMm => assert Headers[17].1 == f;
    case WidthMm => assert Headers[18].1 == f;
    case HeightMm => assert Headers[19].1 == f;
    case TotalWeightKg => assert Headers[20].1 == f;
    case BowlWeightKg => assert Headers[21].1 == f;
    case MotorWeightKg => assert Headers[22].1 == f;
    case BowlVolumeLit => assert Headers[23].1 == f;
    case EjectionSystem => assert Headers[24].1 == f;
    case PowerConsumptionTotalKw => assert Headers[25].1 == f;
  }

  /** A header with no whitespace at its ends and no deleted character normalises to its lower case. */
  lemma NormOfClean(s: string)
    requires s == [] || (!IsSpace(s[0]) && !IsSpace(s[|s| - 1]))
    requires forall i :: 0 <= i < |s| ==> s[i] !in DeletedChars
    ensures Norm(s) == Lower(s)
  {
    NormIsFilter(s);
    StripKeepsTrimmed(s);
    forall i | 0 <= i < |s|
      ensures Lower(s)[i] !in DeletedChars
    {
      LowerCharNotDeleted(s[i]);
    }
    KeepClean(Lower(s), DeletedChars);
  }

  /** Lower-casing never turns a kept character into a deleted one. */
  lemma LowerCharNotDeleted(c: char)
    requires c !in DeletedChars
    ensures LowerChar(c) !in DeletedChars
  {
    if 'A' <= c <= 'Z' {
      assert 97 <= LowerChar(c) as int <= 122;
    }
  }

  // ---------------------------------------------------------------------------
  // The keys of HEADER_MAP are pairwise distinct

  /** No character of x is one the normaliser deletes. */
  predicate Clean(x: string)
  {
    forall i :: 0 <= i < |x| ==> x[i] !in DeletedChars
  }

  /** Every character of sep is one the normaliser deletes. */
  predicate Gone(sep: string)
  {
    forall i :: 0 <= i < |sep| ==> sep[i] in DeletedChars
  }

  /** A string of deleted characters does not survive the filter. */
  lemma {:induction false} KeepGone(s: string)
    requires Gone(s)
    ensures Keep(s, DeletedChars) == []
  {
    if s != [] {
      KeepGone(s[1..]);
    }
  }

  lemma LowerOfGone(sep: string)
    requires Gone(sep)
    ensures Lower(sep) == sep && Gone(Lower(sep))
  {
  }

  /** Lower-casing a clean piece keeps it clean, so the filter passes it whole. */
  lemma KeepLowerClean(x: string)
    requires Clean(x)
    ensures Keep(Lower(x), DeletedChars) == Lower(x)
  {
    forall i | 0 <= i < |x|
      ensures Lower(x)[i] !in DeletedChars
    {
      LowerCharNotDeleted(x[i]);
    }
    KeepClean(Lower(x), DeletedChars);
  }

  /** Filtering p, then a run of deleted characters, then a clean piece x. */
  lemma FilterJoin(p: string, sep: string, x: string)
    requires Gone(sep) && Clean(x)
    ensures Keep(Lower(p + sep + x), DeletedChars) == Keep(Lower(p), DeletedChars) + Lower(x)
  {
    LowerConcat(p + sep, x);
    LowerConcat(p, sep);
    LowerOfGone(sep);
    KeepConcat(Lower(p) + sep, Lower(x), DeletedChars);
    KeepConcat(Lower(p), sep, DeletedChars);
    KeepGone(sep);
    KeepLowerClean(x);
  }

  /**
   * A header made of a trimmed part p, a run of deleted characters and a clean
   * piece x normalises to the normal form of p followed by x in lower case.
   */
  lemma NormAppend(p: string, sep: string, x: string)
    requires |p| > 0 && !IsSpace(p[0]) && !IsSpace(p[|p| - 1])
    requires Gone(sep)
    requires |x| > 0 && !IsSpace(x[|x| - 1]) && Clean(x)
    ensures Norm(p + sep + x) == Norm(p) + Lower(x)
  {
    var s := p + sep + x;
    assert s[0] == p[0] && s[|s| - 1] == x[|x| - 1];
    StripKeepsTrimmed(s);
    StripKeepsTrimmed(p);
    NormIsFilter(s);
    NormIsFilter(p);
    FilterJoin(p, sep, x);
  }

  /** A closing run of deleted characters does not change the normal form. */
  lemma NormAppendLast(p: string, sep: string)
    requires |p| > 0 && !IsSpace(p[0]) && !IsSpace(p[|p| - 1])
    requires |sep| > 0 && Gone(sep) && !IsSpace(sep[|sep| - 1])
    ensures Norm(p + sep) == Norm(p)
  {
    var s := p + sep;
    assert s[0] == p[0] && s[|s| - 1] == sep[|sep| - 1];
    StripKeepsTrimmed(s);
    StripKeepsTrimmed(p);
    NormIsFilter(s);
    NormIsFilter(p);
    LowerConcat(p, sep);
    LowerOfGone(sep);
    KeepConcat(Lower(p), sep, DeletedChars);
    KeepGone(sep);
  }

  /** A clean piece with trimmed ends is its own normal form, lower-cased. */
  lemma NormPiece(x: string)
    requires |x| > 0 && !IsSpace(x[0]) && !IsSpace(x[|x| - 1]) && Clean(x)
    ensures Norm(x) == Lower(x)
  {
    NormOfClean(x);
  }

  /** The prefix "SEP" of most headers normalises to "sep". */
  lemma NormBaseSep()
    ensures Norm("SEP") == "sep"
  {
    NormBaseSEP();
  }

  lemma NormBaseSEP()
    ensures Norm("SEP") == Lower("SEP")
  {
    NormPiece("SEP");
  }

  /** A header "SEP_" followed by a clean piece x normalises to "sep" and x in lower case. */
  lemma NormSep(x: string)
    requires |x| > 0 && !IsSpace(x[|x| - 1]) && Clean(x)
    ensures Norm("SEP" + "_" + x) == "sep" + Lower(x)
  {
    NormAppend("SEP", "_", x);
    NormBaseSep();
  }

  /**
   * For each listed header F, KeyF works out its normal form piece by piece,
   * RankF reads the fingerprint below off that normal form, and AtF joins the
   * two for the header at its place in the list.
   */

  /**
   * A fingerprint of the keys of HEADER_MAP: the position of the header a key
   * comes from, read off its length and one or two of its letters. Two headers
   * whose keys get different ranks have different keys.
   */
  function KeyRank(k: string): int
  {
    var n := |k|;
    if n == 8 then 7
    else if n == 9 then (if k[0] == 's' then 9 else 10)
    else if n == 11 then (if k[0] == 'a' then 0 else 18)
    else if n == 12 then (if k[3] == 'd' then 6 else if k[6] == 'l' then 17 else 19)
    else if n == 13 then 8
    else if n == 14 then (if k[0] == 's' then 1 else 24)
    else if n == 15 then 15
    else if n == 17 then (if k[12] == 'i' then 4 else 5)
    else if n == 18 then (if k[6] == 'm' then 11 else 21)
    else if n == 19 then (if k[6] == 't' then 20 else if k[6] == 'm' then 22 else 23)
    else if n == 21 then (if k[6] == 'p' then 12 else if k[6] == 'm' then 13 else 16)
    else if n == 22 then 14
    else if n == 23 then 25
    else if n == 26 then (if k[17] == 'i' then 2 else 3)
    else -1
  }

  /**
   * No two listed headers share a normal form, so the list of pairs stands
   * for the dict literal without a key written twice.
   */
  lemma KeysDistinct()
    ensures forall i, j :: 0 <= i < j < |Headers| ==> Norm(Headers[i].0) != Norm(Headers[j].0)
  {
    forall i, j | 0 <= i < j < |Headers|
      ensures Norm(Headers[i].0) != Norm(Headers[j].0)
    {
      KeyAt(i);
      KeyAt(j);
    }
  }

  /** The rank of each listed header's key is its position. */
  lemma KeyAt(i: nat)
    requires i < |Headers|
    ensures KeyRank(Norm(Headers[i].0)) == i
  {
    ListedFrom0();
    ListedFrom5();
    ListedFrom10();
    ListedFrom15();
    ListedFrom20();
    ListedFrom25();
    if i == 0 {
      AtApplication(Headers[0].0);
    } else if i == 1 {
      AtSubApplication(Headers[1].0);
    } else if i == 2 {
      AtFeedSolidsMinVolPerc(Headers[2].0);
    } else if i == 3 {
      AtFeedSolidsMaxVolPerc(Headers[3].0);
    } else if i == 4 {
      AtCapacityMinInp(Headers[4].0);
    } else if i == 5 {
      AtCapacityMaxInp(Headers[5].0);
    } else if i == 6 {
      AtDriveType(Headers[6].0);
    } else if i == 7 {
      AtLevel(Headers[7].0);
    } else if i == 8 {
      AtLangtyp(Headers[8].0);
    } else if i == 9 {
      AtDmr(Headers[9].0);
    } else if i == 10 {
      AtListPrice(Headers[10].0);
    } else if i == 11 {
      AtMotorPowerKw(Headers[11].0);
    } else if i == 12 {
      AtProtectionClass(Headers[12].0);
    } else if i == 13 {
      AtMotorEfficiency(Headers[13].0);
    } else if i == 14 {
      AtOpWaterSupplyBar(Headers[14].0);
    } else if i == 15 {
      AtOpWaterLS(Headers[15].0);
    } else if i == 16 {
      AtOpWaterLItEject(Headers[16].0);
    } else if i == 17 {
      AtLengthMm(Headers[17].0);
    } else if i == 18 {
      AtWidthMm(Headers[18].0);
    } else if i == 19 {
      AtHeightMm(Headers[19].0);
    } else if i == 20 {
      AtTotalWeightKg(Headers[20].0);
    } else if i == 21 {
      AtBowlWeightKg(Headers[21].0);
    } else if i == 22 {
      AtMotorWeightKg(Headers[22].0);
    } else if i == 23 {
      AtBowlVolumeLit(Headers[23].0);
    } else if i == 24 {
      AtEjectionSystem(Headers[24].0);
    } else if i == 25 {
      AtPowerConsumptionTotalKw(Headers[25].0);
    }
  }

  lemma ListedFrom0()
    ensures Headers[0] == ("Application", Application)
    ensures Headers[1] == ("Sub" + " " + "Application", SubApplication)
    ensures Headers[2] == ("SEP" + "_" + "SQLFeedSolidsMin" + "_" + "VolPerc", FeedSolidsMinVolPerc)
    ensures Headers[3] == ("SEP" + "_" + "SQLFeedSolidsMax" + "_" + "VolPerc", FeedSolidsMaxVolPerc)
    ensures Headers[4] == ("SEP" + "_" + "CapacityMinInp", CapacityMinInp)
  {
  }

  lemma ListedFrom5()
    ensures Headers[5] == ("SEP" + "_" + "CapacityMaxInp", CapacityMaxInp)
    ensures Headers[6] == ("SEP" + "_" + "DriveType", DriveType)
    ensures Headers[7] == ("SEP" + "_" + "Level", Level)
    ensures Headers[8] == ("SEP" + "_" + "SQLLangtyp", Langtyp)
    ensures Headers[9] == ("SEP" + "_" + "SQLDMR", Dmr)
  {
  }

  lemma ListedFrom10()
    ensures Headers[10] == ("Listprice", ListPrice)
    ensures Headers[11] == ("SEP" + "_" + "SQLMotorPowerKW", MotorPowerKw)
    ensures Headers[12] == ("SEP" + "_" + "SQLProtectionClass", ProtectionClass)
    ensures Headers[13] == ("SEP" + "_" + "SQLMotorEfficiency", MotorEfficiency)
    ensures Headers[14] == ("SEP" + "_" + "SQLOpWaterSupplyBar", OpWaterSupplyBar)
  {
  }

  lemma ListedFrom15()
    ensures Headers[15] == ("SEP" + "_" + "SQLOpWaterls", OpWaterLS)
    ensures Headers[16] == ("SEP" + "_" + "SQLOpWaterliteject", OpWaterLItEject)
    ensures Headers[17] == ("SEP" + "_" + "SQLLength", LengthMm)
    ensures Headers[18] == ("SEP" + "_" + "SQLWidth", WidthMm)
    ensures Headers[19] == ("SEP" + "_" + "SQLHeigth", HeightMm)
  {
  }

  lemma ListedFrom20()
    ensures Headers[20] == ("SEP" + "_" + "SQLTotalWeightKg", TotalWeightKg)
    ensures Headers[21] == ("SEP" + "_" + "SQLBowlWeightKg", BowlWeightKg)
    ensures Headers[22] == ("SEP" + "_" + "SQLMotorWeightKg", MotorWeightKg)
    ensures Headers[23] == ("SEP" + "_" + "SQLBowlVolumeLit", BowlVolumeLit)
    ensures Headers[24] == ("ejection" + " " + "system", EjectionSystem)
  {
  }

  lemma ListedFrom25()
    ensures Headers[25] == ("power" + " " + "consumption" + " " + "TOTAL" + " [" + "kW" + "]", PowerConsumptionTotalKw)
  {
  }

  lemma KeyApplication()
    ensures Norm("Application") == Lower("Application")
  {
    NormPiece("Application");
  }

  lemma AtApplication(h: string)
    requires h == "Application"
    ensures KeyRank(Norm(h)) == 0
  {
    KeyApplication();
    RankApplication(Norm(h));
  }

  lemma RankApplication(k: string)
    requires k == Lower("Application")
    ensures KeyRank(k) == 0
  {
  }

  lemma KeySubApplication()
    ensures Norm("Sub" + " " + "Application") == Lower("Sub") + Lower("Application")
  {
    DropSubApplication1();
    NormBaseSub();
  }

  lemma AtSubApplication(h: string)
    requires h == "Sub" + " " + "Application"
    ensures KeyRank(Norm(h)) == 1
  {
    KeySubApplication();
    RankSubApplication(Norm(h));
  }

  lemma RankSubApplication(k: string)
    requires k == Lower("Sub") + Lower("Application")
    ensures KeyRank(k) == 1
  {
  }

  lemma KeyFeedSolidsMinVolPerc()
    ensures Norm("SEP" + "_" + "SQLFeedSolidsMin" + "_" + "VolPerc") == "sep" + Lower("SQLFeedSolidsMin") + Lower("VolPerc")
  {
    DropFeedSolidsMinVolPerc();
    KeyFeedSolidsMin();
  }

  lemma AtFeedSolidsMinVolPerc(h: string)
    requires h == "SEP" + "_" + "SQLFeedSolidsMin" + "_" + "VolPerc"
    ensures KeyRank(Norm(h)) == 2
  {
    KeyFeedSolidsMinVolPerc();
    RankFeedSolidsMinVolPerc(Norm(h));
  }

  lemma RankFeedSolidsMinVolPerc(k: string)
    requires k == "sep" + Lower("SQLFeedSolidsMin") + Lower("VolPerc")
    ensures KeyRank(k) == 2
  {
  }

  lemma KeyFeedSolidsMaxVolPerc()
    ensures Norm("SEP" + "_" + "SQLFeedSolidsMax" + "_" + "VolPerc") == "sep" + Lower("SQLFeedSolidsMax") + Lower("VolPerc")
  {
    DropFeedSolidsMaxVolPerc();
    KeyFeedSolidsMax();
  }

  lemma AtFeedSolidsMaxVolPerc(h: string)
    requires h == "SEP" + "_" + "SQLFeedSolidsMax" + "_" + "VolPerc"
    ensures KeyRank(Norm(h)) == 3
  {
    KeyFeedSolidsMaxVolPerc();
    RankFeedSolidsMaxVolPerc(Norm(h));
  }

  lemma RankFeedSolidsMaxVolPerc(k: string)
    requires k == "sep" + Lower("SQLFeedSolidsMax") + Lower("VolPerc")
    ensures KeyRank(k) == 3
  {
  }

  lemma KeyCapacityMinInp()
    ensures Norm("SEP" + "_" + "CapacityMinInp") == "sep" + Lower("CapacityMinInp")
  {
    NormSep("CapacityMinInp");
  }

  lemma AtCapacityMinInp(h: string)
    requires h == "SEP" + "_" + "CapacityMinInp"
    ensures KeyRank(Norm(h)) == 4
  {
    KeyCapacityMinInp();
    RankCapacityMinInp(Norm(h));
  }

  lemma RankCapacityMinInp(k: string)
    requires k == "sep" + Lower("CapacityMinInp")
    ensures KeyRank(k) == 4
  {
  }

  lemma KeyCapacityMaxInp()
    ensures Norm("SEP" + "_" + "CapacityMaxInp") == "sep" + Lower("CapacityMaxInp")
  {
    NormSep("CapacityMaxInp");
  }

  lemma AtCapacityMaxInp(h: string)
    requires h == "SEP" + "_" + "CapacityMaxInp"
    ensures KeyRank(Norm(h)) == 5
  {
    KeyCapacityMaxInp();
    RankCapacityMaxInp(Norm(h));
  }

  lemma RankCapacityMaxInp(k: string)
    requires k == "sep" + Lower("CapacityMaxInp")
    ensures KeyRank(k) == 5
  {
  }

  lemma KeyDriveType()
    ensures Norm("SEP" + "_" + "DriveType") == "sep" + Lower("DriveType")
  {
    NormSep("DriveType");
  }

  lemma AtDriveType(h: string)
    requires h == "SEP" + "_" + "DriveType"
    ensures KeyRank(Norm(h)) == 6
  {
    KeyDriveType();
    RankDriveType(Norm(h));
  }

  lemma RankDriveType(k: string)
    requires k == "sep" + Lower("DriveType")
    ensures KeyRank(k) == 6
  {
  }

  lemma KeyLevel()
    ensures Norm("SEP" + "_" + "Level") == "sep" + Lower("Level")
  {
    NormSep("Level");
  }

  lemma AtLevel(h: string)
    requires h == "SEP" + "_" + "Level"
    ensures KeyRank(Norm(h)) == 7
  {
    KeyLevel();
    RankLevel(Norm(h));
  }

  lemma RankLevel(k: string)
    requires k == "sep" + Lower("Level")
    ensures KeyRank(k) == 7
  {
  }

  lemma KeyLangtyp()
    ensures Norm("SEP" + "_" + "SQLLangtyp") == "sep" + Lower("SQLLangtyp")
  {
    NormSep("SQLLangtyp");
  }

  lemma AtLangtyp(h: string)
    requires h == "SEP" + "_" + "SQLLangtyp"
    ensures KeyRank(Norm(h)) == 8
  {
    KeyLangtyp();
    RankLangtyp(Norm(h));
  }

  lemma RankLangtyp(k: string)
    requires k == "sep" + Lower("SQLLangtyp")
    ensures KeyRank(k) == 8
  {
  }

  lemma KeyDmr()
    ensures Norm("SEP" + "_" + "SQLDMR") == "sep" + Lower("SQLDMR")
  {
    NormSep("SQLDMR");
  }

  lemma AtDmr(h: string)
    requires h == "SEP" + "_" + "SQLDMR"
    ensures KeyRank(Norm(h)) == 9
  {
    KeyDmr();
    RankDmr(Norm(h));
  }

  lemma RankDmr(k: string)
    requires k == "sep" + Lower("SQLDMR")
    ensures KeyRank(k) == 9
  {
  }

  lemma KeyListPrice()
    ensures Norm("Listprice") == Lower("Listprice")
  {
    NormPiece("Listprice");
  }

  lemma AtListPrice(h: string)
    requires h == "Listprice"
    ensures KeyRank(Norm(h)) == 10
  {
    KeyListPrice();
    RankListPrice(Norm(h));
  }

  lemma RankListPrice(k: string)
    requires k == Lower("Listprice")
    ensures KeyRank(k) == 10
  {
  }

  lemma KeyMotorPowerKw()
    ensures Norm("SEP" + "_" + "SQLMotorPowerKW") == "sep" + Lower("SQLMotorPowerKW")
  {
    NormSep("SQLMotorPowerKW");
  }

  lemma AtMotorPowerKw(h: string)
    requires h == "SEP" + "_" + "SQLMotorPowerKW"
    ensures KeyRank(Norm(h)) == 11
  {
    KeyMotorPowerKw();
    RankMotorPowerKw(Norm(h));
  }

  lemma RankMotorPowerKw(k: string)
    requires k == "sep" + Lower("SQLMotorPowerKW")
    ensures KeyRank(k) == 11
  {
  }

  lemma KeyProtectionClass()
    ensures Norm("SEP" + "_" + "SQLProtectionClass") == "sep" + Lower("SQLProtectionClass")
  {
    NormSep("SQLProtectionClass");
  }

  lemma AtProtectionClass(h: string)
    requires h == "SEP" + "_" + "SQLProtectionClass"
    ensures KeyRank(Norm(h)) == 12
  {
    KeyProtectionClass();
    RankProtectionClass(Norm(h));
  }

  lemma RankProtectionClass(k: string)
    requires k == "sep" + Lower("SQLProtectionClass")
    ensures KeyRank(k) == 12
  {
  }

  lemma KeyMotorEfficiency()
    ensures Norm("SEP" + "_" + "SQLMotorEfficiency") == "sep" + Lower("SQLMotorEfficiency")
  {
    NormSep("SQLMotorEfficiency");
  }

  lemma AtMotorEfficiency(h: string)
    requires h == "SEP" + "_" + "SQLMotorEfficiency"
    ensures KeyRank(Norm(h)) == 13
  {
    KeyMotorEfficiency();
    RankMotorEfficiency(Norm(h));
  }

  lemma RankMotorEfficiency(k: string)
    requires k == "sep" + Lower("SQLMotorEfficiency")
    ensures KeyRank(k) == 13
  {
  }

  lemma KeyOpWaterSupplyBar()
    ensures Norm("SEP" + "_" + "SQLOpWaterSupplyBar") == "sep" + Lower("SQLOpWaterSupplyBar")
  {
    NormSep("SQLOpWaterSupplyBar");
  }

  lemma AtOpWaterSupplyBar(h: string)
    requires h == "SEP" + "_" + "SQLOpWaterSupplyBar"
    ensures KeyRank(Norm(h)) == 14
  {
    KeyOpWaterSupplyBar();
    RankOpWaterSupplyBar(Norm(h));
  }

  lemma RankOpWaterSupplyBar(k: string)
    requires k == "sep" + Lower("SQLOpWaterSupplyBar")
    ensures KeyRank(k) == 14
  {
  }

  lemma KeyOpWaterLS()
    ensures Norm("SEP" + "_" + "SQLOpWaterls") == "sep" + Lower("SQLOpWaterls")
  {
    NormSep("SQLOpWaterls");
  }

  lemma AtOpWaterLS(h: string)
    requires h == "SEP" + "_" + "SQLOpWaterls"
    ensures KeyRank(Norm(h)) == 15
  {
    KeyOpWaterLS();
    RankOpWaterLS(Norm(h));
  }

  lemma RankOpWaterLS(k: string)
    requires k == "sep" + Lower("SQLOpWaterls")
    ensures KeyRank(k) == 15
  {
  }

  lemma KeyOpWaterLItEject()
    ensures Norm("SEP" + "_" + "SQLOpWaterliteject") == "sep" + Lower("SQLOpWaterliteject")
  {
    NormSep("SQLOpWaterliteject");
  }

  lemma AtOpWaterLItEject(h: string)
    requires h == "SEP" + "_" + "SQLOpWaterliteject"
    ensures KeyRank(Norm(h)) == 16
  {
    KeyOpWaterLItEject();
    RankOpWaterLItEject(Norm(h));
  }

  lemma RankOpWaterLItEject(k: string)
    requires k == "sep" + Lower("SQLOpWaterliteject")
    ensures KeyRank(k) == 16
  {
  }

  lemma KeyLengthMm()
    ensures Norm("SEP" + "_" + "SQLLength") == "sep" + Lower("SQLLength")
  {
    NormSep("SQLLength");
  }

  lemma AtLengthMm(h: string)
    requires h == "SEP" + "_" + "SQLLength"
    ensures KeyRank(Norm(h)) == 17
  {
    KeyLengthMm();
    RankLengthMm(Norm(h));
  }

  lemma RankLengthMm(k: string)
    requires k == "sep" + Lower("SQLLength")
    ensures KeyRank(k) == 17
  {
  }

  lemma KeyWidthMm()
    ensures Norm("SEP" + "_" + "SQLWidth") == "sep" + Lower("SQLWidth")
  {
    NormSep("SQLWidth");
  }

  lemma AtWidthMm(h: string)
    requires h == "SEP" + "_" + "SQLWidth"
    ensures KeyRank(Norm(h)) == 18
  {
    KeyWidthMm();
    RankWidthMm(Norm(h));
  }

  lemma RankWidthMm(k: string)
    requires k == "sep" + Lower("SQLWidth")
    ensures KeyRank(k) == 18
  {
  }

  lemma KeyHeightMm()
    ensures Norm("SEP" + "_" + "SQLHeigth") == "sep" + Lower("SQLHeigth")
  {
    NormSep("SQLHeigth");
  }

  lemma AtHeightMm(h: string)
    requires h == "SEP" + "_" + "SQLHeigth"
    ensures KeyRank(Norm(h)) == 19
  {
    KeyHeightMm();
    RankHeightMm(Norm(h));
  }

  lemma RankHeightMm(k: string)
    requires k == "sep" + Lower("SQLHeigth")
    ensures KeyRank(k) == 19
  {
  }

  lemma KeyTotalWeightKg()
    ensures Norm("SEP" + "_" + "SQLTotalWeightKg") == "sep" + Lower("SQLTotalWeightKg")
  {
    NormSep("SQLTotalWeightKg");
  }

  lemma AtTotalWeightKg(h: string)
    requires h == "SEP" + "_" + "SQLTotalWeightKg"
    ensures KeyRank(Norm(h)) == 20
  {
    KeyTotalWeightKg();
    RankTotalWeightKg(Norm(h));
  }

  lemma RankTotalWeightKg(k: string)
    requires k == "sep" + Lower("SQLTotalWeightKg")
    ensures KeyRank(k) == 20
  {
  }

  lemma KeyBowlWeightKg()
    ensures Norm("SEP" + "_" + "SQLBowlWeightKg") == "sep" + Lower("SQLBowlWeightKg")
  {
    NormSep("SQLBowlWeightKg");
  }

  lemma AtBowlWeightKg(h: string)
    requires h == "SEP" + "_" + "SQLBowlWeightKg"
    ensures KeyRank(Norm(h)) == 21
  {
    KeyBowlWeightKg();
    RankBowlWeightKg(Norm(h));
  }

  lemma RankBowlWeightKg(k: string)
    requires k == "sep" + Lower("SQLBowlWeightKg")
    ensures KeyRank(k) == 21
  {
  }

  lemma KeyMotorWeightKg()
    ensures Norm("SEP" + "_" + "SQLMotorWeightKg") == "sep" + Lower("SQLMotorWeightKg")
  {
    NormSep("SQLMotorWeightKg");
  }

  lemma AtMotorWeightKg(h: string)
    requires h == "SEP" + "_" + "SQLMotorWeightKg"
    ensures KeyRank(Norm(h)) == 22
  {
    KeyMotorWeightKg();
    RankMotorWeightKg(Norm(h));
  }

  lemma RankMotorWeightKg(k: string)
    requires k == "sep" + Lower("SQLMotorWeightKg")
    ensures KeyRank(k) == 22
  {
  }

  lemma KeyBowlVolumeLit()
    ensures Norm("SEP" + "_" + "SQLBowlVolumeLit") == "sep" + Lower("SQLBowlVolumeLit")
  {
    NormSep("SQLBowlVolumeLit");
  }

  lemma AtBowlVolumeLit(h: string)
    requires h == "SEP" + "_" + "SQLBowlVolumeLit"
    ensures KeyRank(Norm(h)) == 23
  {
    KeyBowlVolumeLit();
    RankBowlVolumeLit(Norm(h));
  }

  lemma RankBowlVolumeLit(k: string)
    requires k == "sep" + Lower("SQLBowlVolumeLit")
    ensures KeyRank(k) == 23
  {
  }

  lemma KeyEjectionSystem()
    ensures Norm("ejection" + " " + "system") == Lower("ejection") + Lower("system")
  {
    DropEjectionSystem1();
    NormBaseEjection();
  }

  lemma AtEjectionSystem(h: string)
    requires h == "ejection" + " " + "system"
    ensures KeyRank(Norm(h)) == 24
  {
    KeyEjectionSystem();
    RankEjectionSystem(Norm(h));
  }

  lemma RankEjectionSystem(k: string)
    requires k == Lower("ejection") + Lower("system")
    ensures KeyRank(k) == 24
  {
  }

  lemma KeyPowerConsumptionTotalKw()
    ensures Norm("power" + " " + "consumption" + " " + "TOTAL" + " [" + "kW" + "]") == Lower("power") + Lower("consumption") + Lower("TOTAL") + Lower("kW")
  {
    DropPowerConsumptionTotalKwLast();
    DropPowerConsumptionTotalKw1();
    DropPowerConsumptionTotalKw2();
    DropPowerConsumptionTotalKw3();
    NormBasePower();
  }

  lemma AtPowerConsumptionTotalKw(h: string)
    requires h == "power" + " " + "consumption" + " " + "TOTAL" + " [" + "kW" + "]"
    ensures KeyRank(Norm(h)) == 25
  {
    KeyPowerConsumptionTotalKw();
    RankPowerConsumptionTotalKw(Norm(h));
  }

  lemma RankPowerConsumptionTotalKw(k: string)
    requires k == Lower("power") + Lower("consumption") + Lower("TOTAL") + Lower("kW")
    ensures KeyRank(k) == 25
  {
  }

  lemma DropSubApplication1()
    ensures Norm("Sub" + " " + "Application") == Norm("Sub") + Lower("Application")
  {
    NormAppend("Sub", " ", "Application");
  }

  lemma KeyFeedSolidsMin()
    ensures Norm("SEP" + "_" + "SQLFeedSolidsMin") == "sep" + Lower("SQLFeedSolidsMin")
  {
    NormSep("SQLFeedSolidsMin");
  }

  lemma DropFeedSolidsMinVolPerc()
    ensures Norm("SEP" + "_" + "SQLFeedSolidsMin" + "_" + "VolPerc") == Norm("SEP" + "_" + "SQLFeedSolidsMin") + Lower("VolPerc")
  {
    NormAppend("SEP" + "_" + "SQLFeedSolidsMin", "_", "VolPerc");
  }

  lemma KeyFeedSolidsMax()
    ensures Norm("SEP" + "_" + "SQLFeedSolidsMax") == "sep" + Lower("SQLFeedSolidsMax")
  {
    NormSep("SQLFeedSolidsMax");
  }

  lemma DropFeedSolidsMaxVolPerc()
    ensures Norm("SEP" + "_" + "SQLFeedSolidsMax" + "_" + "VolPerc") == Norm("SEP" + "_" + "SQLFeedSolidsMax") + Lower("VolPerc")
  {
    NormAppend("SEP" + "_" + "SQLFeedSolidsMax", "_", "VolPerc");
  }

  lemma DropEjectionSystem1()
    ensures Norm("ejection" + " " + "system") == Norm("ejection") + Lower("system")
  {
    NormAppend("ejection", " ", "system");
  }

  lemma DropPowerConsumptionTotalKwLast()
    ensures Norm("power" + " " + "consumption" + " " + "TOTAL" + " [" + "kW" + "]") == Norm("power" + " " + "consumption" + " " + "TOTAL" + " [" + "kW")
  {
    NormAppendLast("power" + " " + "consumption" + " " + "TOTAL" + " [" + "kW", "]");
  }

  lemma DropPowerConsumptionTotalKw1()
    ensures Norm("power" + " " + "consumption" + " " + "TOTAL" + " [" + "kW") == Norm("power" + " " + "consumption" + " " + "TOTAL") + Lower("kW")
  {
    NormAppend("power" + " " + "consumption" + " " + "TOTAL", " [", "kW");
  }

  lemma DropPowerConsumptionTotalKw2()
    ensures Norm("power" + " " + "consumption" + " " + "TOTAL") == Norm("power" + " " + "consumption") + Lower("TOTAL")
  {
    NormAppend("power" + " " + "consumption", " ", "TOTAL");
  }

  lemma DropPowerConsumptionTotalKw3()
    ensures Norm("power" + " " + "consumption") == Norm("power") + Lower("consumption")
  {
    NormAppend("power", " ", "consumption");
  }

  lemma NormBaseSub()
    ensures Norm("Sub") == Lower("Sub")
  {
    NormPiece("Sub");
  }

  lemma NormBaseEjection()
    ensures Norm("ejection") == Lower("ejection")
  {
    NormPiece("ejection");
  }

  lemma NormBasePower()
    ensures Norm("power") == Lower("power")
  {
    NormPiece("power");
  }

  // ---------------------------------------------------------------------------
  // load_machines_from_csv

  /**
   * `{_norm(h): h for h in fieldnames}`: each normal form to the last header of
   * the file that has it, for the normaliser given.
   */
  function HeaderIndex(fieldnames: seq<string>, norm: string -> string): (m: map<string, string>)
    ensures forall k :: k in m ==> norm(m[k]) == k && m[k] in fieldnames
  {
    if fieldnames == [] then map[]
    else
      var init, last := fieldnames[..|fieldnames| - 1], fieldnames[|fieldnames| - 1];
      HeaderIndex(init, norm)[norm(last) := last]
  }

  /** Every header of the file is reachable through its normal form. */
  lemma {:induction false} HeaderIndexCoversFile(fieldnames: seq<string>, norm: string -> string, i: nat)
    requires i < |fieldnames|
    ensures norm(fieldnames[i]) in HeaderIndex(fieldnames, norm)
  {
    var init := fieldnames[..|fieldnames| - 1];
    if i < |init| {
      assert init[i] == fieldnames[i];
      HeaderIndexCoversFile(init, norm, i);
    }
  }

  /** Of several headers with one normal form, the last one in the file is the one read. */
  lemma {:induction false} LastHeaderWins(fieldnames: seq<string>, norm: string -> string, i: nat)
    requires i < |fieldnames|
    requires forall j :: i < j < |fieldnames| ==> norm(fieldnames[j]) != norm(fieldnames[i])
    ensures norm(fieldnames[i]) in HeaderIndex(fieldnames, norm)
    ensures HeaderIndex(fieldnames, norm)[norm(fieldnames[i])] == fieldnames[i]
  {
    if i < |fieldnames| - 1 {
      var init := fieldnames[..|fieldnames| - 1];
      assert init[i] == fieldnames[i];
      LastHeaderWins(init, norm, i);
    }
  }

  /** `row.get(src_header)` for the header the key selects, None when there is none. */
  function Raw(index: map<string, string>, row: map<string, string>, key: string): Option<string>
  {
    if key in index && index[key] in row then Some(row[index[key]]) else None
  }

  /**
   * A column feeds the field of a key exactly when its header normalises to
   * that key: a value read comes from such a column, and with such a column
   * present in the row a value is read.
   */
  lemma ColumnFeedsKey(fieldnames: seq<string>, norm: string -> string, row: map<string, string>, key: string)
    ensures Raw(HeaderIndex(fieldnames, norm), row, key).Some? ==>
      exists h :: h in fieldnames && norm(h) == key && h in row
        && row[h] == Raw(HeaderIndex(fieldnames, norm), row, key).value
    ensures ((forall h :: h in fieldnames && norm(h) == key ==> h in row)
      && (exists i :: 0 <= i < |fieldnames| && norm(fieldnames[i]) == key))
      ==> Raw(HeaderIndex(fieldnames, norm), row, key).Some?
  {
    if exists i :: 0 <= i < |fieldnames| && norm(fieldnames[i]) == key {
      var i :| 0 <= i < |fieldnames| && norm(fieldnames[i]) == key;
      HeaderIndexCoversFile(fieldnames, norm, i);
    }
  }

  /** The value a machine field takes: text, the efficiency class, or a raw number string. */
  datatype FieldValue =
    | TextValue(text: string)
    | EfficiencyValue(efficiency: Option<string>)
    | NumberValue(raw: Option<string>)

  /** The fields kept as stripped text. */
  predicate IsTextField(f: Field)
  {
    f.Application? || f.SubApplication? || f.DriveType? || f.Level? || f.Langtyp?
    || f.ProtectionClass? || f.EjectionSystem?
  }

  /** `(raw or "").strip()`. */
  function StrippedOrEmpty(raw: Option<string>): (v: string)
    ensures raw.None? ==> v == []
    ensures v == [] || (!IsSpace(v[0]) && !IsSpace(v[|v| - 1]))
  {
    match raw
    case None => []
    case Some(s) => Strip(s)
  }

  /** The dash strings of the efficiency test as the source file spells them (em and en dash mis-decoded). */
  const GarbledEmDash: string := "\U{E2}\U{20AC}\U{201D}"
  const GarbledEnDash: string := "\U{E2}\U{20AC}\U{201C}"

  /** The motor efficiency exactly as written: empty, "-" and the two garbled dashes mean none. */
  function EfficiencyClassAsWritten(raw: Option<string>): (e: Option<string>)
    ensures e.None? <==> StrippedOrEmpty(raw) in {[], "-", GarbledEmDash, GarbledEnDash}
    ensures e.Some? ==> e.value == StrippedOrEmpty(raw)
  {
    var v := StrippedOrEmpty(raw);
    if v in {[], "-", GarbledEmDash, GarbledEnDash} then None else Some(v)
  }

  /** A real em dash in the efficiency column is kept as text by the written test, and dropped by the intended one. */
  lemma EmDashSlipsThrough()
    ensures EfficiencyClassAsWritten(Some("\U{2014}")) == Some("\U{2014}")
    ensures EfficiencyClass(Some("\U{2014}")) == None
  {
    EmDashStripped();
    var v := "\U{2014}";
    assert v != [] && v != "-" by {
      assert v[0] != "-"[0];
    }
    assert v != GarbledEmDash && v != GarbledEnDash by {
      assert |v| != |GarbledEmDash| && |v| != |GarbledEnDash|;
    }
  }

  lemma EmDashStripped()
    ensures StrippedOrEmpty(Some("\U{2014}")) == "\U{2014}"
  {
    StripKeepsTrimmed("\U{2014}");
  }

  /** The empty and dash spellings that mean "no efficiency class". */
  const NoEfficiency: set<string> := {[], "-", "\U{2014}", "\U{2013}"}

  /**
   * The motor efficiency as intended: the stripped value, or none when it is
   * empty, a hyphen, an em dash or an en dash.
   */
  function EfficiencyClass(raw: Option<string>): (e: Option<string>)
    ensures e.None? <==> StrippedOrEmpty(raw) in NoEfficiency
    ensures e.Some? ==> (e.value == StrippedOrEmpty(raw) && e.value != []
      && !IsSpace(e.value[0]) && !IsSpace(e.value[|e.value| - 1]))
  {
    var v := StrippedOrEmpty(raw);
    if v in NoEfficiency then None else Some(v)
  }

  /** The conversion each field's raw cell undergoes. */
  function Convert(field: Field, raw: Option<string>): (v: FieldValue)
    ensures IsTextField(field) <==> v.TextValue?
    ensures field == MotorEfficiency <==> v.EfficiencyValue?
    ensures v.TextValue? ==> v.text == StrippedOrEmpty(raw)
    ensures v.EfficiencyValue? ==> v.efficiency == EfficiencyClassAsWritten(raw)
    ensures v.NumberValue? ==> v.raw == raw
  {
    if IsTextField(field) then TextValue(StrippedOrEmpty(raw))
    else if field == MotorEfficiency then EfficiencyValue(EfficiencyClassAsWritten(raw))
    else NumberValue(raw)
  }

  /** The keyword arguments built from the given table entries, later entries overriding. */
  function RowFields(entries: seq<(string, Field)>, index: map<string, string>, row: map<string, string>)
    : (kwargs: map<Field, FieldValue>)
    ensures kwargs.Keys == set i | 0 <= i < |entries| :: entries[i].1
  {
    if entries == [] then map[]
    else
      var e := entries[|entries| - 1];
      var init := entries[..|entries| - 1];
      var m := RowFields(init, index, row)[e.1 := Convert(e.1, Raw(index, row, e.0))];
      assert forall i :: 0 <= i < |init| ==> entries[i] == init[i];
      m
  }

  /** A field named once in the table takes the converted value of its own key's column. */
  lemma {:induction false} RowFieldAt(entries: seq<(string, Field)>, index: map<string, string>, row: map<string, string>, i: nat)
    requires i < |entries|
    requires forall j :: i < j < |entries| ==> entries[j].1 != entries[i].1
    ensures RowFields(entries, index, row)[entries[i].1] == Convert(entries[i].1, Raw(index, row, entries[i].0))
  {
    if i < |entries| - 1 {
      var init := entries[..|entries| - 1];
      assert init[i] == entries[i];
      RowFieldAt(init, index, row, i);
    }
  }

  /** The loop over the table's entries: every entry's field, converted from its key's column. */
  method RowKwargs(entries: seq<(string, Field)>, index: map<string, string>, row: map<string, string>)
    returns (kwargs: map<Field, FieldValue>)
    ensures kwargs == RowFields(entries, index, row)
  {
    kwargs := map[];
    for n := 0 to |entries|
      invariant kwargs == RowFields(entries[..n], index, row)
    {
      var normHeader, fieldName := entries[n].0, entries[n].1;
      var raw := if normHeader in index && index[normHeader] in row then Some(row[index[normHeader]]) else None;
      if IsTextField(fieldName) {
        kwargs := kwargs[fieldName := TextValue(StrippedOrEmpty(raw))];
      } else if fieldName == MotorEfficiency {
        kwargs := kwargs[fieldName := EfficiencyValue(EfficiencyClassAsWritten(raw))];
      } else {
        kwargs := kwargs[fieldName := NumberValue(raw)];
      }
      assert entries[..n + 1][..n] == entries[..n];
    }
    assert entries[..|entries|] == entries;
  }

  /** With the loader's table every field of the machine record receives a value. */
  lemma EveryFieldConverted(index: map<string, string>, row: map<string, string>)
    ensures forall f: Field :: f in RowFields(HeaderMap(), index, row)
  {
    var entries := HeaderMap();
    forall f: Field
      ensures f in RowFields(entries, index, row)
    {
      EveryFieldListed(f);
      var i :| 0 <= i < |Headers| && Headers[i].1 == f;
      assert entries[i].1 == f;
    }
  }

  /**
   * The loader applies the efficiency test as written: a real em dash in the
   * column of "SEP_SQLMotorEfficiency" (key 13 of the table) reaches the
   * machine record as text, where the intended test gives no class.
   */
  lemma LoaderKeepsEmDash(index: map<string, string>, row: map<string, string>)
    ensures Raw(index, row, HeaderMap()[13].0) == Some("\U{2014}") ==>
      MotorEfficiency in RowFields(HeaderMap(), index, row)
      && RowFields(HeaderMap(), index, row)[MotorEfficiency] == EfficiencyValue(Some("\U{2014}"))
    ensures EfficiencyClass(Some("\U{2014}")) == None
  {
    EfficiencyFieldAt();
    RowFieldAt(HeaderMap(), index, row, 13);
    EmDashSlipsThrough();
  }

  /** The efficiency field is fed by entry 13 of the table and by no later entry. */
  lemma EfficiencyFieldAt()
    ensures Headers[13].1 == MotorEfficiency
    ensures forall j :: 13 < j < |Headers| ==> Headers[j].1 != MotorEfficiency
  {
    ListedFrom10();
    ListedFrom15();
    ListedFrom20();
    ListedFrom25();
    // one case per later entry, each read off the list
    forall j | 13 < j < |Headers|
      ensures Headers[j].1 != MotorEfficiency
    {
      if j == 14 {
      } else if j == 15 {
      } else if j == 16 {
      } else if j == 17 {
      } else if j == 18 {
      } else if j == 19 {
      } else if j == 20 {
      } else if j == 21 {
      } else if j == 22 {
      } else if j == 23 {
      } else if j == 24 {
      } else if j == 25 {
      }
    }
  }


  /** One loaded machine: its keyword arguments. */
  type Machine = map<Field, FieldValue>

  /** The loop over the rows: one machine per row, in order. */
  method LoadRows(entries: seq<(string, Field)>, index: map<string, string>, rows: seq<map<string, string>>)
    returns (machines: seq<Machine>)
    ensures |machines| == |rows|
    ensures forall k :: 0 <= k < |rows| ==> machines[k] == RowFields(entries, index, rows[k])
  {
    machines := [];
    for k := 0 to |rows|
      invariant |machines| == k
      invariant forall q :: 0 <= q < k ==> machines[q] == RowFields(entries, index, rows[q])
    {
      var kwargs := RowKwargs(entries, index, rows[k]);
      machines := machines + [kwargs];
    }
  }

  /**
   * load_machines_from_csv for a file that exists or not, its header line
   * and its rows: an error naming the path when missing, else one machine per
   * row, in order.
   */
  method LoadMachinesFromCsv(path: string, fileExists: bool, fieldnames: seq<string>, rows: seq<map<string, string>>)
    returns (r: Result<seq<Machine>, string>)
    ensures !fileExists <==> r.Err?
    ensures r.Err? ==> r.error == "CSV not found: " + path
    ensures r.Ok? ==> (|r.value| == |rows|
      && forall k :: 0 <= k < |rows| ==> r.value[k] == RowFields(HeaderMap(), HeaderIndex(fieldnames, Norm), rows[k]))
  {
    if !fileExists {
      return Err("CSV not found: " + path);
    }
    var machines := LoadRows(HeaderMap(), HeaderIndex(fieldnames, Norm), rows);
    return Ok(machines);
  }
}
