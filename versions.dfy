/** The closed table of protocol versions the recognizer supports, the two
    advertised lists, and the number-to-text mapping used in diagnostics. */
module ProtocolVersions {
  import opened Text

  // The version enum, in declaration order; each constant is named after the
  // client release its number belongs to.
  const Proto1_2_5: int := 29
  const Proto1_3_2: int := 39
  const Proto1_4_2: int := 47
  const Proto1_4_4: int := 49
  const Proto1_4_6: int := 51

  /** The default for the primary server version. */
  const ProtoLatest: int := Proto1_4_6

  /** Every supported protocol number, in declaration order. */
  const Supported: seq<int> := [Proto1_2_5, Proto1_3_2, Proto1_4_2, Proto1_4_4, Proto1_4_6]

  predicate IsSupported(v: int) { v in Supported }

  /** The advertised list of protocol numbers. */
  const ProtocolVersionsText: string := "29, 39, 47, 49, 51"

  /** The advertised list of client releases, which as one literal reads
      "1.2.4, 1.2.5, 1.3.1, 1.3.2, 1.4.2, 1.4.4, 1.4.5, 1.4.6, 1.4.7";
      it is written as three pieces so that proofs about it stay small. */
  const ClientVersionsText: string :=
    "1.2.4, 1.2.5, 1.3.1" + ", " + "1.3.2, 1.4.2, 1.4.4" + ", " + "1.4.5, 1.4.6, 1.4.7"

  const UnknownPrefix: string := "Unknown protocol ("

  /** Protocol number to client-version text: a supported number gives the
      release its enum constant is named after, e.g. 49 gives "1.4.4"; any
      other integer gives a text naming the number as unknown. */
  function GetVersionTextFromInt(v: int): (text: string)
    ensures v == Proto1_4_4 ==> text == "1.4.4"
    ensures !IsSupported(v) ==> text == UnknownPrefix + IntText(v) + ")"
  {
    if v == Proto1_2_5 then "1.2.5"
    else if v == Proto1_3_2 then "1.3.2"
    else if v == Proto1_4_2 then "1.4.2"
    else if v == Proto1_4_4 then "1.4.4"
    else if v == Proto1_4_6 then "1.4.6"
    else UnknownPrefix + IntText(v) + ")"
  }

  /** The supported numbers are exactly 29, 39, 47, 49 and 51, strictly
      increasing (hence distinct) in declaration order. */
  lemma SupportedTable()
    ensures forall v :: IsSupported(v) <==> v in {29, 39, 47, 49, 51}
    ensures forall i, j :: 0 <= i < j < |Supported| ==> Supported[i] < Supported[j]
  {
  }

  /** The latest version is supported and no supported version is newer. */
  lemma LatestIsNewest()
    ensures IsSupported(ProtoLatest)
    ensures forall v :: IsSupported(v) ==> v <= ProtoLatest
    ensures ProtoLatest == Supported[|Supported| - 1]
  {
  }

  lemma SupportedTexts()
    ensures IntTexts(Supported) == ["29", "39", "47", "49", "51"]
  {
    assert DecimalText(29) == "29" && DecimalText(39) == "39" && DecimalText(47) == "47";
    assert DecimalText(49) == "49" && DecimalText(51) == "51";
  }

  lemma ProtocolListPieces()
    ensures ProtocolVersionsText == "29" + Separator + "39" + Separator + "47" + Separator + "49" + Separator + "51"
  {
  }

  /** The advertised protocol list is the enum values, in order, joined by ", ",
      and it reads back as exactly those values. */
  lemma AdvertisedProtocolList()
    ensures ProtocolVersionsText == Join(IntTexts(Supported))
    ensures ParseIntList(ProtocolVersionsText) == Some(Supported)
  {
    SupportedTexts();
    JoinFive("29", "39", "47", "49", "51");
    ProtocolListPieces();
    IntListRoundTrip(Supported);
  }

  function ClientReleases(): (rs: seq<string>)
  {
    ["1.2.4", "1.2.5", "1.3.1"] + ["1.3.2", "1.4.2", "1.4.4"] + ["1.4.5", "1.4.6", "1.4.7"]
  }

  lemma ClientListPieces()
    ensures ClientVersionsText ==
      ("1.2.4" + Separator + "1.2.5" + Separator + "1.3.1") + Separator +
      ("1.3.2" + Separator + "1.4.2" + Separator + "1.4.4") + Separator +
      ("1.4.5" + Separator + "1.4.6" + Separator + "1.4.7")
  {
  }

  /** The advertised client list is the nine releases joined by ", ". */
  lemma ClientListIsJoin()
    ensures ClientVersionsText == Join(ClientReleases())
  {
    var a, b, c := ["1.2.4", "1.2.5", "1.3.1"], ["1.3.2", "1.4.2", "1.4.4"], ["1.4.5", "1.4.6", "1.4.7"];
    JoinAppend(a, b);
    JoinAppend(a + b, c);
    JoinThree("1.2.4", "1.2.5", "1.3.1");
    JoinThree("1.3.2", "1.4.2", "1.4.4");
    JoinThree("1.4.5", "1.4.6", "1.4.7");
    ClientListPieces();
  }

  lemma ClientListEntries()
    ensures Split(ClientVersionsText) == ClientReleases()
  {
    var rs := ClientReleases();
    ClientListIsJoin();
    assert forall k :: 0 <= k < |rs| ==> ',' !in rs[k];
    SplitJoin(rs);
  }

  /** Every advertised client release starts with the major version digit. */
  lemma ReleasesStartWithOne()
    ensures forall r :: r in ClientReleases() ==> |r| > 0 && r[0] == '1'
  {
  }

  /** A number's text is one of the advertised client releases exactly when
      the number is supported. */
  lemma VersionTextAdvertised(v: int)
    ensures GetVersionTextFromInt(v) in Split(ClientVersionsText) <==> IsSupported(v)
  {
    ClientListEntries();
    var text := GetVersionTextFromInt(v);
    if IsSupported(v) {
      assert text in ClientReleases();
    } else {
      ReleasesStartWithOne();
      assert text[0] == 'U';
    }
  }

  /** Distinct numbers never share a text, so a text names one number. */
  lemma VersionTextInjective(a: int, b: int)
    requires GetVersionTextFromInt(a) == GetVersionTextFromInt(b)
    ensures a == b
  {
    var ta, tb := GetVersionTextFromInt(a), GetVersionTextFromInt(b);
    if !IsSupported(a) && !IsSupported(b) {
      var n := |UnknownPrefix|;
      assert ta[n..|ta| - 1] == IntText(a);
      assert tb[n..|tb| - 1] == IntText(b);
      IntTextInjective(a, b);
    }
  }
}
