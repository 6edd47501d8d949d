/** A worked example of the selection: ETH calls struck at 3000 and
    3100 for the expiries 10 and 17 January 2025, at a spot of 3050. */
module AtmExample {
  import opened Wrappers
  import opened AtmSelection
  import Text

  /** The four quotes of the example; the symbols end in the tokens
      `100125` and `170125`, and the 3000 call of 17 January has no bid. */
  predicate EthQuotes(a1: Quote, a2: Quote, b1: Quote, b2: Quote)
  {
    && a1 == Quote("ETH", CallOptions, a1.symbol, Some(3050.0), Some(3000.0), Value(Some(52.0)), Value(Some(7.0)))
    && a2 == Quote("ETH", CallOptions, a2.symbol, Some(3050.0), Some(3100.0), Value(Some(21.0)), Value(Some(3.0)))
    && b1 == Quote("ETH", CallOptions, b1.symbol, Some(3050.0), Some(3000.0), Null, Null)
    && b2 == Quote("ETH", CallOptions, b2.symbol, Some(3050.0), Some(3100.0), Value(Some(40.0)), Value(Some(5.0)))
    && ExpiryOf(a1) == "100125" && ExpiryOf(a2) == "100125"
    && ExpiryOf(b1) == "170125" && ExpiryOf(b2) == "170125"
  }

  /** Symbols such as `C-ETH-3000-100125` carry the tokens the example
      assumes. */
  lemma ExampleSymbol(s: string)
    requires s == "C-ETH-3000-100125"
    ensures Text.LastToken(s, '-') == "100125"
  {
    Text.LastTokenOfLength(s, '-', 6);
  }

  /** In both variants of the example there is one group per expiry, 10
      January first. */
  lemma EthExpiries(a1: Quote, a2: Quote, b1: Quote, b2: Quote, userSpot: real)
    requires EthQuotes(a1, a2, b1, b2)
    requires userSpot == 0.0 || userSpot == 2000.0
    ensures var gs := SelectAtm([a1, a2, b1, b2], "ETH", userSpot);
      |gs| == 2 && gs[0].expiry == "100125" && gs[1].expiry == "170125"
  {
    var gs := SelectAtm([a1, a2, b1, b2], "ETH", userSpot);
    assert forall i, j :: 0 <= i < j < |gs| ==> Text.Less(gs[i].expiry, gs[j].expiry) by {
      SelectAtmExpiries([a1, a2, b1, b2], "ETH", userSpot);
    }
    EthHasTokens(a1, a2, b1, b2, userSpot);
    EthOnlyTokens(a1, a2, b1, b2, userSpot);
    TwoTokens(gs, "100125", "170125");
  }

  lemma EthHasTokens(a1: Quote, a2: Quote, b1: Quote, b2: Quote, userSpot: real)
    requires EthQuotes(a1, a2, b1, b2)
    requires userSpot == 0.0 || userSpot == 2000.0
    ensures var gs := SelectAtm([a1, a2, b1, b2], "ETH", userSpot);
      "100125" in GroupExpiries(gs) && "170125" in GroupExpiries(gs)
  {
    var qs := [a1, a2, b1, b2];
    SelectAtmExpiries(qs, "ETH", userSpot);
    assert IsCandidateQuote(a2, "ETH", userSpot, "100125");
    assert IsCandidateQuote(b2, "ETH", userSpot, "170125");
    assert HasCandidate(qs, "ETH", userSpot, "100125");
    assert HasCandidate(qs, "ETH", userSpot, "170125");
  }

  lemma EthOnlyTokens(a1: Quote, a2: Quote, b1: Quote, b2: Quote, userSpot: real)
    requires EthQuotes(a1, a2, b1, b2)
    ensures forall g :: g in SelectAtm([a1, a2, b1, b2], "ETH", userSpot) ==>
      g.expiry == "100125" || g.expiry == "170125"
  {
    var qs := [a1, a2, b1, b2];
    SelectAtmProvenance(qs, "ETH", userSpot);
    forall g | g in SelectAtm(qs, "ETH", userSpot) ensures g.expiry == "100125" || g.expiry == "170125" {
      var q0 :| q0 in qs && IsCandidateQuote(q0, "ETH", userSpot, g.expiry);
      EthTokenOf(a1, a2, b1, b2, q0);
    }
  }

  lemma EthTokenOf(a1: Quote, a2: Quote, b1: Quote, b2: Quote, q0: Quote)
    requires EthQuotes(a1, a2, b1, b2)
    requires q0 in [a1, a2, b1, b2]
    ensures ExpiryOf(q0) == "100125" || ExpiryOf(q0) == "170125"
  {
  }

  /** Without an override, the 3100 call is selected for both expiries:
      the 3000 call of 10 January is below the spot, and the one of 17
      January has no bid. */
  lemma EthWithoutOverride(a1: Quote, a2: Quote, b1: Quote, b2: Quote)
    requires EthQuotes(a1, a2, b1, b2)
    ensures var gs := SelectAtm([a1, a2, b1, b2], "ETH", 0.0);
      && |gs| == 2
      && gs[0].expiry == "100125" && gs[1].expiry == "170125"
      && gs[0].strike == Some(3100.0) && gs[1].strike == Some(3100.0)
  {
    var qs := [a1, a2, b1, b2];
    var gs := SelectAtm(qs, "ETH", 0.0);
    EthExpiries(a1, a2, b1, b2, 0.0);
    SelectAtmProvenance(qs, "ETH", 0.0);
    forall i | 0 <= i < 2 ensures gs[i].strike == Some(3100.0) {
      assert gs[i] in gs;
      var q0 :| q0 in qs && IsCandidateQuote(q0, "ETH", 0.0, gs[i].expiry) && gs[i].strike == q0.strike;
      NoOverrideCandidates(a1, a2, b1, b2, q0);
    }
  }

  lemma NoOverrideCandidates(a1: Quote, a2: Quote, b1: Quote, b2: Quote, q0: Quote)
    requires EthQuotes(a1, a2, b1, b2)
    requires q0 in [a1, a2, b1, b2] && IsCandidate(WithSpot(q0, 0.0))
    ensures q0 == a2 || q0 == b2
  {
  }

  /** With the spot overridden to 2000, the 3000 call of 10 January
      qualifies too and, being the lower strike, is selected; 17 January
      still gets the 3100 call, and every row carries the override. */
  lemma EthWithOverride(a1: Quote, a2: Quote, b1: Quote, b2: Quote)
    requires EthQuotes(a1, a2, b1, b2)
    ensures var gs := SelectAtm([a1, a2, b1, b2], "ETH", 2000.0);
      && |gs| == 2
      && gs[0].expiry == "100125" && gs[1].expiry == "170125"
      && gs[0].strike == Some(3000.0) && gs[1].strike == Some(3100.0)
      && gs[0].spot == Some(2000.0) && gs[1].spot == Some(2000.0)
  {
    var qs := [a1, a2, b1, b2];
    var gs := SelectAtm(qs, "ETH", 2000.0);
    EthExpiries(a1, a2, b1, b2, 2000.0);
    SelectAtmQualifies(qs, "ETH", 2000.0);
    assert gs[0] in gs && gs[1] in gs;
    assert gs[0].strike == Some(3000.0) by {
      SelectAtmProvenance(qs, "ETH", 2000.0);
      SelectAtmMinimumStrike(qs, "ETH", 2000.0);
      var q0 :| q0 in qs && IsCandidateQuote(q0, "ETH", 2000.0, gs[0].expiry) && gs[0].strike == q0.strike;
      OverrideCandidates(a1, a2, b1, b2, q0);
      assert IsCandidateQuote(a1, "ETH", 2000.0, gs[0].expiry);
      assert gs[0].strike.value <= a1.strike.value;
    }
    assert gs[1].strike == Some(3100.0) by {
      SelectAtmProvenance(qs, "ETH", 2000.0);
      var q0 :| q0 in qs && IsCandidateQuote(q0, "ETH", 2000.0, gs[1].expiry) && gs[1].strike == q0.strike;
      OverrideCandidates(a1, a2, b1, b2, q0);
    }
  }

  lemma OverrideCandidates(a1: Quote, a2: Quote, b1: Quote, b2: Quote, q0: Quote)
    requires EthQuotes(a1, a2, b1, b2)
    requires q0 in [a1, a2, b1, b2] && IsCandidate(WithSpot(q0, 2000.0))
    ensures q0 == a1 || q0 == a2 || q0 == b2
  {
  }

  /** A strictly ascending sequence of groups covering exactly the two
      tokens `x` and `y`, with `x` first, is one group of each. */
  lemma TwoTokens(gs: seq<Group>, x: string, y: string)
    requires Text.Less(x, y)
    requires forall i, j :: 0 <= i < j < |gs| ==> Text.Less(gs[i].expiry, gs[j].expiry)
    requires forall g :: g in gs ==> g.expiry == x || g.expiry == y
    requires x in GroupExpiries(gs) && y in GroupExpiries(gs)
    ensures |gs| == 2 && gs[0].expiry == x && gs[1].expiry == y
  {
    Text.LessIrreflexiveAsymmetric(x, y);
    Text.LessIrreflexiveAsymmetric(x, x);
    Text.LessIrreflexiveAsymmetric(y, y);
    var i :| 0 <= i < |gs| && gs[i].expiry == x;
    var j :| 0 <= j < |gs| && gs[j].expiry == y;
    var mid := if |gs| > 2 then 1 else 0;
    assert gs[0] in gs && gs[mid] in gs && gs[|gs| - 1] in gs;
  }
}
