/** One recorded point of the newer history engine, a moment: the document state
    captured there, its place in the timeline's linked list, and the label and narrative
    the user gives it. */
module Moments {
  import opened Snapshot

  /** The storable record of a moment: every field except the two links. */
  datatype MomentStorage = MomentStorage(
    ID: int, codapState: Value, isMarker: bool, title: string, created: int, narrative: string)

  class Moment {
    var ID: int
    /** The source declares the links as `Moment | null` but the timeline stores IDs in
        them; -1 means "none", as for a moment not yet linked. */
    var prev: int
    var next: int
    var codapState: Value
    var isMarker: bool
    var title: string
    /** Creation time, in milliseconds. */
    var created: int
    /** Only the plain-text form of a narrative is modelled. */
    var narrative: string

    /** A fresh, unlinked moment holding `iState`, created at time `now`. */
    constructor (iState: Value, now: int)
      ensures ID == -1 && prev == -1 && next == -1
      ensures codapState == iState && title == "moment" && !isMarker && narrative == ""
      ensures created == now
    {
      ID, prev, next := -1, -1, -1;
      codapState := iState;
      isMarker := false;
      title := "";
      created := now;
      narrative := "";
      new;
      SetTitle("moment");
    }

    function CreateStorage(): MomentStorage
      reads this
    {
      MomentStorage(ID, codapState, isMarker, title, created, narrative)
    }

    /** Loads every stored field; the links are left as they are. */
    method RestoreFromStorage(iStorage: MomentStorage)
      modifies this`ID, this`codapState, this`isMarker, this`title, this`created, this`narrative
      ensures CreateStorage() == iStorage
    {
      ID := iStorage.ID;
      codapState := iStorage.codapState;
      isMarker := iStorage.isMarker;
      title := iStorage.title;
      created := iStorage.created;
      narrative := iStorage.narrative;
    }

    /** The narrative as text, tagged as plain text; the narrative can be read back. */
    function ExtractNarrative(): (r: string)
      reads this
      ensures |r| == |narrative| + 6 && r[..6] == "(txt) " && r[6..] == narrative
    {
      "(txt) " + narrative
    }

    function ToString(): string
      reads this
    {
      "ID: " + IntText(ID) + " title: [" + title + "] narrative: " + ExtractNarrative()
    }

    method SetCodapState(iCodapState: Value)
      modifies this`codapState
      ensures codapState == iCodapState
    {
      codapState := iCodapState;
    }

    method SetTitle(iTitle: string)
      modifies this`title
      ensures title == iTitle
    {
      title := iTitle;
    }

    method SetMarker(iMarker: bool)
      modifies this`isMarker
      ensures isMarker == iMarker
    {
      isMarker := iMarker;
    }

    method SetNarrative(iText: string)
      modifies this`narrative
      ensures narrative == iText
    {
      narrative := iText;
    }
  }

  /** Storing a moment and restoring it from the record changes nothing. */
  method StorageRoundTrip(m: Moment)
    modifies m
    ensures unchanged(m)
  {
    m.RestoreFromStorage(m.CreateStorage());
  }

  /** The text of a moment names its ID: moments with different IDs print differently. */
  lemma ToStringIdentifiesMoment(a: Moment, b: Moment)
    requires a.ID != b.ID
    ensures a.ToString() != b.ToString()
  {
    var s, t := a.ToString(), b.ToString();
    var x, y := IntText(a.ID), IntText(b.ID);
    assert s == "ID: " + x + (" title: [" + a.title + "] narrative: " + a.ExtractNarrative());
    assert t == "ID: " + y + (" title: [" + b.title + "] narrative: " + b.ExtractNarrative());
    IntTextInjective(a.ID, b.ID);
    if |x| == |y| {
      assert s[4..4 + |x|] == x && t[4..4 + |y|] == y;
    } else if |x| < |y| {
      assert s[4 + |x|] == ' ' && t[4 + |x|] == y[|x|];
    } else {
      assert t[4 + |y|] == ' ' && s[4 + |y|] == x[|y|];
    }
  }

  /** The character of one decimal digit. */
  function DigitChar(d: nat): (c: char)
    requires d < 10
    ensures '0' <= c <= '9' && c as int - '0' as int == d
  {
    ('0' as int + d) as char
  }

  /** The decimal digits of `n`, most significant first, without leading zeros. */
  function NatText(n: nat): (s: string)
    ensures |s| > 0 && forall i :: 0 <= i < |s| ==> '0' <= s[i] <= '9'
    decreases n
  {
    if n < 10 then [DigitChar(n)] else NatText(n / 10) + [DigitChar(n % 10)]
  }

  /** An integer as JavaScript writes it in a template string. */
  function IntText(n: int): (s: string)
    ensures |s| > 0 && (s[0] == '-' <==> n < 0) && forall i :: 1 <= i < |s| ==> '0' <= s[i] <= '9'
  {
    if n < 0 then "-" + NatText(-n) else NatText(n)
  }

  /** Reads back a string of decimal digits. */
  function ParseNat(s: string): nat
    requires forall i :: 0 <= i < |s| ==> '0' <= s[i] <= '9'
  {
    if s == [] then 0 else ParseNat(s[..|s| - 1]) * 10 + (s[|s| - 1] as int - '0' as int)
  }

  lemma {:induction false} ParseNatText(n: nat)
    ensures ParseNat(NatText(n)) == n
    decreases n
  {
    if n >= 10 {
      var s := NatText(n);
      assert s[..|s| - 1] == NatText(n / 10);
      ParseNatText(n / 10);
    }
  }

  /** Different numbers have different decimal texts. */
  lemma NatTextInjective(a: nat, b: nat)
    requires a != b
    ensures NatText(a) != NatText(b)
  {
    ParseNatText(a);
    ParseNatText(b);
  }

  /** Printing an integer loses nothing: integers with different values print
      differently. */
  lemma IntTextInjective(a: int, b: int)
    requires a != b
    ensures IntText(a) != IntText(b)
  {
    if a < 0 && b < 0 {
      NatTextInjective(-a, -b);
      assert IntText(a)[1..] == NatText(-a);
      assert IntText(b)[1..] == NatText(-b);
    } else if a >= 0 && b >= 0 {
      NatTextInjective(a, b);
    } else {
      assert IntText(a)[0] != IntText(b)[0];
    }
  }
}
