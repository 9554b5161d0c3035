/**
 The theme table the pipeline ships with, and what the classifier does with it.
 */
module ReferenceTable {
  import opened Text
  import opened Themes

  const StabilityName := "App Stability & Bugs"
  const TransactionName := "Transaction Performance"
  const InterfaceName := "User Interface & Experience"
  const SupportName := "Customer Support"
  const FeatureName := "Feature Requests & Completeness"
  const AccessName := "Account Access"

  /** The six themes, in declaration order. */
  const Table: seq<Theme> := [
    Theme(StabilityName, ["crash", "bug", "error", "login error", "freezing", "update problem", "not working", "fix app"]),
    Theme(TransactionName, ["slow", "transfer", "transaction", "delay", "pending", "speed", "fast", "quick"]),
    Theme(InterfaceName, ["ui", "interface", "easy use", "confusing", "design", "simple", "user friendly", "layout", "good ui", "bad ui"]),
    Theme(SupportName, ["support", "customer service", "help", "respond", "call", "chatbot", "contact"]),
    Theme(FeatureName, ["fingerprint", "otp", "new feature", "add", "option", "loan", "transfer money", "budgeting"]),
    Theme(AccessName, ["login", "account", "password", "otp", "access", "blocked", "register"])
  ]

  /** `otp` is a keyword of the last two themes, so a text containing it ends
      its label list with Feature Requests and then Account Access. */
  lemma OtpTagsFeatureThenAccess(text: string)
    requires Contains(Lower(text), "otp")
    ensures var r := AssignThemes(text, Table); |r| >= 2 && r[|r| - 2..] == [FeatureName, AccessName]
  {
    var t := Lower(text);
    assert Contains(t, Table[4].keywords[1]);
    assert Contains(t, Table[5].keywords[3]);
    assert Matches(Table[4], t);
    assert Matches(Table[5], t);
    assert Table == Table[..4] + [Table[4], Table[5]];
    LastTwoFire(text, Table[..4], Table[4], Table[5]);
  }

  /** The table has six distinct theme names, none of them "Other", and no
      empty keyword. */
  lemma TableWellFormed()
    ensures DistinctNames(Table)
    ensures Other !in Names(Table)
    ensures NoEmptyKeyword(Table)
  {
    NamesOfTable();
    forall i | 0 <= i < |Table| ensures "" !in Table[i].keywords {
      NoEmptyKeywordAt(i);
    }
  }

  lemma NamesOfTable()
    ensures Names(Table) == [StabilityName, TransactionName, InterfaceName, SupportName, FeatureName, AccessName]
  {
  }

  lemma NoEmptyKeywordAt(i: int)
    requires 0 <= i < |Table|
    ensures "" !in Table[i].keywords
  {
    var ks := Table[i].keywords;
    forall j | 0 <= j < |ks| ensures |ks[j]| > 0 {
    }
  }

  /** For the shipped table every review gets a duplicate-free list of labels
      that is either exactly ["Other"] or a list of real themes in table order. */
  lemma ResultShape(text: string)
    ensures var r := AssignThemes(text, Table);
      && NoDuplicates(r)
      && (r == [Other] || (Other !in r && IsSubsequence(r, Names(Table))))
  {
    TableWellFormed();
  }

  lemma EmptyReviewIsOther()
    ensures AssignThemes("", Table) == [Other]
  {
    TableWellFormed();
    EmptyTextIsOther(Table);
  }

  /** `add` is a Feature Requests keyword, and it sits inside `address`. */
  lemma AddressTagsFeatureRequests(text: string)
    requires Contains(Lower(text), "address")
    ensures FeatureName in AssignThemes(text, Table)
  {
    ContainsPiece(Lower(text), "address", Table[4].keywords[3], 0);
    assert Matches(Table[4], Lower(text));
  }

  /** `ui` sits inside the Transaction Performance keyword `quick`, so every
      text that fires Transaction Performance through `quick` fires User
      Interface as well. */
  lemma QuickTagsInterfaceToo(text: string)
    requires Contains(Lower(text), "quick")
    ensures TransactionName in AssignThemes(text, Table)
    ensures InterfaceName in AssignThemes(text, Table)
  {
    ContainsPiece(Lower(text), Table[1].keywords[7], Table[2].keywords[0], 1);
    assert Matches(Table[1], Lower(text));
    assert Matches(Table[2], Lower(text));
  }

  /** The Feature Requests keyword `transfer money` contains the Transaction
      Performance keyword `transfer`. */
  lemma TransferMoneyTagsTransactionToo(text: string)
    requires Contains(Lower(text), "transfer money")
    ensures FeatureName in AssignThemes(text, Table)
    ensures TransactionName in AssignThemes(text, Table)
  {
    ContainsPiece(Lower(text), Table[4].keywords[6], Table[1].keywords[1], 0);
    assert Matches(Table[4], Lower(text));
    assert Matches(Table[1], Lower(text));
  }

  /** The App Stability keyword `login error` contains the Account Access
      keyword `login`. */
  lemma LoginErrorTagsAccessToo(text: string)
    requires Contains(Lower(text), "login error")
    ensures StabilityName in AssignThemes(text, Table)
    ensures AccessName in AssignThemes(text, Table)
  {
    ContainsPiece(Lower(text), Table[0].keywords[3], Table[5].keywords[0], 0);
    assert Matches(Table[0], Lower(text));
    assert Matches(Table[5], Lower(text));
  }
}
