/** The status message written when a video's results are stored: it reports
    how many DISTINCT contents were detected (the number of groups of
    `GroupBy(qr => qr.Content)`), not how many raw detections there were. */
module CompletionSummary {
  import opened Wrappers
  import opened Contracts
  import opened Sequences
  import Text

  /** The contents that occur in `ds`. */
  function Contents(ds: seq<QrCodeDetection>): set<string> {
    set d | d in ds :: d.content
  }

  /** The group keys of `GroupBy(qr => qr.Content)`, in order of first occurrence. */
  function GroupKeys(ds: seq<QrCodeDetection>): (keys: seq<string>)
    ensures Distinct(keys)
    ensures Elements(keys) == Contents(ds)
    ensures |keys| <= |ds|
    ensures ds != [] ==> ds[|ds| - 1].content in keys
  {
    if ds == [] then []
    else
      var keys := GroupKeys(ds[..|ds| - 1]);
      var c := ds[|ds| - 1].content;
      assert Contents(ds) == Contents(ds[..|ds| - 1]) + {c} by {
        assert ds == ds[..|ds| - 1] + [ds[|ds| - 1]];
        forall x | x in Contents(ds) ensures x in Contents(ds[..|ds| - 1]) + {c} {
          var d :| d in ds && d.content == x;
          var i :| 0 <= i < |ds| && ds[i] == d;
          if i < |ds| - 1 {
            assert ds[..|ds| - 1][i] == d;
          }
        }
      }
      if c in keys then keys else keys + [c]
  }

  /** `GroupBy(qr => qr.Content).Count()`. */
  function UniqueCount(ds: seq<QrCodeDetection>): nat {
    |GroupKeys(ds)|
  }

  /** The group count is the number of distinct contents; it is zero exactly
      when there are no detections, and never more than the raw count. */
  lemma {:induction false} UniqueCountIsDistinctContents(ds: seq<QrCodeDetection>)
    ensures UniqueCount(ds) == |Contents(ds)|
    ensures UniqueCount(ds) <= |ds|
    ensures UniqueCount(ds) == 0 <==> ds == []
  {
    DistinctCardinality(GroupKeys(ds));
  }

  const MessagePrefix := "Processing completed with "
  const NoCodesMessage := "Processing completed with no QR codes detected"

  /** The completion message for a given number of distinct contents. */
  function CompletionMessage(uniqueCount: nat): string {
    if uniqueCount == 0 then NoCodesMessage
    else MessagePrefix + Text.NatToString(uniqueCount) + " unique QR codes detected"
  }

  /** The message for a detection list that may be null; null counts as none. */
  function SummaryMessage(detections: Option<seq<QrCodeDetection>>): string {
    match detections
    case None => CompletionMessage(0)
    case Some(ds) => CompletionMessage(UniqueCount(ds))
  }

  /** The message determines the count: "no QR codes" means zero, and different
      non-zero counts read differently. */
  lemma {:induction false} CompletionMessageInjective(a: nat, b: nat)
    ensures CompletionMessage(a) == CompletionMessage(b) ==> a == b
    ensures CompletionMessage(a) == NoCodesMessage <==> a == 0
  {
    var p := |MessagePrefix|;
    if a != 0 {
      var m := CompletionMessage(a);
      assert m[p] == Text.NatToString(a)[0];
      assert Text.IsDigit(m[p]);
      assert NoCodesMessage[p] == 'n';
    }
    if a != 0 && b != 0 && CompletionMessage(a) == CompletionMessage(b) {
      var m := CompletionMessage(a);
      var sa := Text.NatToString(a);
      var sb := Text.NatToString(b);
      assert |sa| == |sb|;
      assert sa == m[p..p + |sa|];
      assert sb == m[p..p + |sb|];
      Text.NatToStringInjective(a, b);
    }
    if a == 0 && b != 0 {
      assert CompletionMessage(b)[p] == Text.NatToString(b)[0];
      assert NoCodesMessage[p] == 'n';
    }
  }

  /** Repeated contents are counted once: A, B, A yields "2 unique". */
  lemma {:induction false} DistinctNotRaw()
    ensures var ds := [QrCodeDetection("A", 1.0, 1, "f1"), QrCodeDetection("B", 2.0, 2, "f2"), QrCodeDetection("A", 4.0, 4, "f4")];
            UniqueCount(ds) == 2 && SummaryMessage(Some(ds)) == MessagePrefix + "2" + " unique QR codes detected"
  {
    var ds := [QrCodeDetection("A", 1.0, 1, "f1"), QrCodeDetection("B", 2.0, 2, "f2"), QrCodeDetection("A", 4.0, 4, "f4")];
    assert ds[..2][..1] == [ds[0]];
    assert GroupKeys([ds[0]]) == ["A"];
    assert GroupKeys(ds[..2]) == ["A", "B"];
    assert GroupKeys(ds) == ["A", "B"];
    assert Text.NatToString(2) == "2";
  }
}
