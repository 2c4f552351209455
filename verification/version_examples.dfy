/** The table tests of `pkg/utils/version` and `pkg/updater`, stated against
    the model, one row per lemma. */
module VersionExamples {
  import opened Wrappers
  import opened Strings
  import opened Strconv
  import opened Version

  /** A caret range. */
  lemma CleanVersionCaret()
    ensures GetCleanVersion("^1.2.3") == Some(CleanVersion("^", "1.2.3"))
  {
    CleanVersionOfParts("^1.2.3", "^", "1.2.3", "1", "2", "3", "");
  }

  /** A tilde range. */
  lemma CleanVersionTilde()
    ensures GetCleanVersion("~1.2.0") == Some(CleanVersion("~", "1.2.0"))
  {
    CleanVersionOfParts("~1.2.0", "~", "1.2.0", "1", "2", "0", "");
  }

  /** A bare version has an empty prefix. */
  lemma CleanVersionBare()
    ensures GetCleanVersion("1.2.3") == Some(CleanVersion("", "1.2.3"))
  {
    CleanVersionOfParts("1.2.3", "", "1.2.3", "1", "2", "3", "");
  }

  /** A pre-release tail is dropped. */
  lemma CleanVersionPreRelease()
    ensures GetCleanVersion("^1.2.3-alpha.1") == Some(CleanVersion("^", "1.2.3"))
  {
    CleanVersionOfParts("^1.2.3-alpha.1", "^", "1.2.3", "1", "2", "3", "-alpha.1");
  }

  /** Multi-digit components and a pre-release tail. */
  lemma CleanVersionCanary()
    ensures GetCleanVersion("^15.0.0-canary.102") == Some(CleanVersion("^", "15.0.0"))
  {
    CleanVersionOfParts("^15.0.0-canary.102", "^", "15.0.0", "15", "0", "0", "-canary.102");
  }

  /** Digit runs are taken whole. */
  lemma CleanVersionMultiDigit()
    ensures GetCleanVersion("12.34.56") == Some(CleanVersion("", "12.34.56"))
  {
    CleanVersionOfParts("12.34.56", "", "12.34.56", "12", "34", "56", "");
  }

  /** No full triple, so no clean version (the source's table expects
      zero padding here, which its pattern cannot produce). */
  lemma CleanVersionEmpty()
    ensures GetCleanVersion("").None?
  {
    OneDotNoCleanVersion("", 0);
  }

  /** No full triple, so no clean version (the source's table expects
      zero padding here, which its pattern cannot produce). */
  lemma CleanVersionMajorOnly()
    ensures GetCleanVersion("^1").None?
  {
    OneDotNoCleanVersion("^1", 0);
  }

  /** No full triple, so no clean version (the source's table expects
      zero padding here, which its pattern cannot produce). */
  lemma CleanVersionMajorMinor()
    ensures GetCleanVersion("^1.2").None?
  {
    OneDotNoCleanVersion("^1.2", 2);
  }

  /** No full triple, so no clean version (the source's table expects
      zero padding here, which its pattern cannot produce). */
  lemma CleanVersionTwoParts()
    ensures GetCleanVersion("123.3456").None?
  {
    OneDotNoCleanVersion("123.3456", 3);
  }

  lemma ComponentsOneZeroZero()
    ensures HasTriple("1.0.0") && GetVersionComponents("1.0.0") == (1, 0, 0)
  {
    assert "1" == FormatNat(1);
    assert "0" == FormatNat(0);
    ComponentsOfParts("1.0.0", "", "1.0.0", "1", "0", "0", "");
  }

  lemma ComponentsTwoOneFive()
    ensures HasTriple("2.1.5") && GetVersionComponents("2.1.5") == (2, 1, 5)
  {
    assert "2" == FormatNat(2);
    assert "1" == FormatNat(1);
    assert "5" == FormatNat(5);
    ComponentsOfParts("2.1.5", "", "2.1.5", "2", "1", "5", "");
  }

  lemma ComponentsZeroZeroOne()
    ensures HasTriple("0.0.1") && GetVersionComponents("0.0.1") == (0, 0, 1)
  {
    assert "0" == FormatNat(0);
    assert "1" == FormatNat(1);
    ComponentsOfParts("0.0.1", "", "0.0.1", "0", "0", "1", "");
  }

  lemma ComponentsMulti()
    ensures HasTriple("30.12.17") && GetVersionComponents("30.12.17") == (30, 12, 17)
  {
    assert "30" == FormatNat(30);
    assert "12" == FormatNat(12);
    assert "17" == FormatNat(17);
    ComponentsOfParts("30.12.17", "", "30.12.17", "30", "12", "17", "");
  }

  lemma ComponentsZeroTenZero()
    ensures HasTriple("0.10.0") && GetVersionComponents("0.10.0") == (0, 10, 0)
  {
    assert "0" == FormatNat(0);
    assert "10" == FormatNat(10);
    ComponentsOfParts("0.10.0", "", "0.10.0", "0", "10", "0", "");
  }

  lemma ComponentsPreRelease()
    ensures HasTriple("1.2.3-beta.1") && GetVersionComponents("1.2.3-beta.1") == (1, 2, 3)
  {
    assert "1" == FormatNat(1);
    assert "2" == FormatNat(2);
    assert "3" == FormatNat(3);
    ComponentsOfParts("1.2.3-beta.1", "", "1.2.3", "1", "2", "3", "-beta.1");
  }

  lemma UpdateTypeCase1()
    ensures Classifiable("1.0.0", "1.0.1")
    ensures GetVersionUpdateType("1.0.0", "1.0.1") == UpdateType(Patch, Upgrade)
  {
    assert "1" == FormatNat(1);
    assert "0" == FormatNat(0);
    UpdateTypeOfTriples("1.0.0", "1", "0", "0", "1.0.1", "1", "0", "1");
  }

  lemma UpdateTypeCase2()
    ensures Classifiable("1.0.0", "1.1.0")
    ensures GetVersionUpdateType("1.0.0", "1.1.0") == UpdateType(Minor, Upgrade)
  {
    assert "1" == FormatNat(1);
    assert "0" == FormatNat(0);
    UpdateTypeOfTriples("1.0.0", "1", "0", "0", "1.1.0", "1", "1", "0");
  }

  lemma UpdateTypeCase3()
    ensures Classifiable("1.0.0", "2.0.0")
    ensures GetVersionUpdateType("1.0.0", "2.0.0") == UpdateType(Major, Upgrade)
  {
    assert "1" == FormatNat(1);
    assert "0" == FormatNat(0);
    assert "2" == FormatNat(2);
    UpdateTypeOfTriples("1.0.0", "1", "0", "0", "2.0.0", "2", "0", "0");
  }

  lemma UpdateTypeCase4()
    ensures Classifiable("2.0.0", "2.0.0")
    ensures GetVersionUpdateType("2.0.0", "2.0.0") == UpdateType(NoneT, NoneD)
  {
    assert "2" == FormatNat(2);
    assert "0" == FormatNat(0);
    UpdateTypeOfTriples("2.0.0", "2", "0", "0", "2.0.0", "2", "0", "0");
  }

  lemma UpdateTypeCase5()
    ensures Classifiable("1.9.9", "2.1.2")
    ensures GetVersionUpdateType("1.9.9", "2.1.2") == UpdateType(Major, Upgrade)
  {
    assert "1" == FormatNat(1);
    assert "9" == FormatNat(9);
    assert "2" == FormatNat(2);
    UpdateTypeOfTriples("1.9.9", "1", "9", "9", "2.1.2", "2", "1", "2");
  }

  lemma UpdateTypeCase6()
    ensures Classifiable("3.5.6", "3.6.9")
    ensures GetVersionUpdateType("3.5.6", "3.6.9") == UpdateType(Minor, Upgrade)
  {
    assert "3" == FormatNat(3);
    assert "5" == FormatNat(5);
    assert "6" == FormatNat(6);
    assert "9" == FormatNat(9);
    UpdateTypeOfTriples("3.5.6", "3", "5", "6", "3.6.9", "3", "6", "9");
  }

  lemma UpdateTypeCase7()
    ensures Classifiable("20.10.10", "20.10.11")
    ensures GetVersionUpdateType("20.10.10", "20.10.11") == UpdateType(Patch, Upgrade)
  {
    assert "20" == FormatNat(20);
    assert "10" == FormatNat(10);
    assert "11" == FormatNat(11);
    UpdateTypeOfTriples("20.10.10", "20", "10", "10", "20.10.11", "20", "10", "11");
  }

  lemma UpdateTypeCase8()
    ensures Classifiable("1.1.1", "0.1.1")
    ensures GetVersionUpdateType("1.1.1", "0.1.1") == UpdateType(Major, Downgrade)
  {
    assert "1" == FormatNat(1);
    assert "0" == FormatNat(0);
    UpdateTypeOfTriples("1.1.1", "1", "1", "1", "0.1.1", "0", "1", "1");
  }

  lemma UpdateTypeCase9()
    ensures Classifiable("1.1.1", "1.0.1")
    ensures GetVersionUpdateType("1.1.1", "1.0.1") == UpdateType(Minor, Downgrade)
  {
    assert "1" == FormatNat(1);
    assert "0" == FormatNat(0);
    UpdateTypeOfTriples("1.1.1", "1", "1", "1", "1.0.1", "1", "0", "1");
  }

  lemma UpdateTypeCase10()
    ensures Classifiable("1.1.1", "1.1.0")
    ensures GetVersionUpdateType("1.1.1", "1.1.0") == UpdateType(Patch, Downgrade)
  {
    assert "1" == FormatNat(1);
    assert "0" == FormatNat(0);
    UpdateTypeOfTriples("1.1.1", "1", "1", "1", "1.1.0", "1", "1", "0");
  }

  /** What `strconv.Atoi` reads from the parts of `1.2.3-beta` and `1.2.0`. */
  lemma BetaPartsRead()
    ensures Atoi("1") == 1 && Atoi("2") == 2 && Atoi("0") == 0
    ensures Atoi("3-beta") == 0
  {
    assert "1" == FormatNat(1);
    assert "2" == FormatNat(2);
    assert "0" == FormatNat(0);
    AtoiTrailingText("3", "-beta");
    assert "3" + "-beta" == "3-beta";
  }

  /** A part that is not a plain number reads as 0: `1.2.3-beta` against
      `1.2.0` is no change at all. */
  lemma UpdateTypeNonNumericPart()
    ensures Classifiable("1.2.3-beta", "1.2.0")
    ensures GetVersionUpdateType("1.2.3-beta", "1.2.0") == UpdateType(NoneT, NoneD)
  {
    BetaPartsRead();
    UpdateTypeOfParts("1.2.3-beta", "1", "2", "3-beta", "1.2.0", "1", "2", "0");
  }
}
