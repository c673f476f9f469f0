/** Concrete sessions walked through end to end. */
module Scenarios {
  import opened Wrappers
  import opened Session
  import HexUid
  import Normalize

  lemma EncodeExample()
    ensures HexUid.Encode([10, 27, 44]) == "0A1B2C"
  {
    assert HexUid.ByteHex(10) == "0A";
    assert HexUid.ByteHex(27) == "1B";
    assert HexUid.ByteHex(44) == "2C";
  }

  /** `" 0a1b2c "` normalises to `"0A1B2C"`. */
  lemma NormalizeExample()
    ensures Normalize.Normalize(" 0a1b2c ") == "0A1B2C"
  {
    var s, t, u := " 0a1b2c ", "0a1b2c ", "0a1b2c";
    assert Normalize.IsSpace(s[0]) && s[1..] == t;
    assert !Normalize.IsSpace(t[0]) && Normalize.TrimStart(t) == t;
    assert Normalize.IsSpace(t[6]) && t[..6] == u;
    assert !Normalize.IsSpace(u[5]) && Normalize.TrimEnd(u) == u;
    assert Normalize.Trim(s) == u;
    assert Normalize.Upper(u) == "0A1B2C";
  }

  lemma KeyExample()
    ensures Normalize.Trim("R1") == "R1"
  {
    Normalize.TrimTrimmed("R1");
  }

  /** Loading receipt R1, whose list is `[" 0a1b2c "]`, then reading the tag
      with id bytes 0A 1B 2C gives a session that verifies. */
  lemma LowerCaseReceiptMatchesTag()
    ensures Verify(Run(Initial, [LoadClicked("R1", Some([" 0a1b2c "])), TagRead(Some([10, 27, 44]))])).matched
  {
    var e1, e2 := LoadClicked("R1", Some([" 0a1b2c "])), TagRead(Some([10, 27, 44]));
    var s1, s2 := Session("R1", [" 0a1b2c "], []), Session("R1", [" 0a1b2c "], ["0A1B2C"]);
    LoadStep();
    ScanStep();
    RunTwo(Initial, e1, e2);
    ExpectedExample(NormalizeAll(s2.expected));
    ScannedExample(NormalizeAll(s2.scanned));
  }

  lemma LoadStep()
    ensures Step(Initial, LoadClicked("R1", Some([" 0a1b2c "]))) == Session("R1", [" 0a1b2c "], [])
  {
    KeyExample();
  }

  lemma ScanStep()
    ensures Step(Session("R1", [" 0a1b2c "], []), TagRead(Some([10, 27, 44])))
            == Session("R1", [" 0a1b2c "], ["0A1B2C"])
  {
    EncodeExample();
  }

  lemma RunTwo(s: Session, e1: Event, e2: Event)
    ensures Run(s, [e1, e2]) == Step(Step(s, e1), e2)
  {
    var s1 := Step(s, e1);
    assert [e1, e2][1..] == [e2] && [e2][1..] == [];
    assert Run(s, [e1, e2]) == Run(s1, [e2]);
    assert Run(s1, [e2]) == Run(Step(s1, e2), []);
  }

  lemma ExpectedExample(ne: seq<string>)
    requires ne == NormalizeAll([" 0a1b2c "])
    ensures ne == ["0A1B2C"]
  {
    NormalizeExample();
    NormalizeAllSingleton(" 0a1b2c ");
  }

  lemma ScannedExample(ns: seq<string>)
    requires ns == NormalizeAll(["0A1B2C"])
    ensures ns == ["0A1B2C"]
  {
    Normalize.UidIsCanonical("0A1B2C");
    NormalizeAllSingleton("0A1B2C");
  }

  /** A negative byte is printed as its unsigned value: -1 is `FF`. */
  lemma SignedByteExample()
    ensures HexUid.Encode([-1, 0, 17]) == "FF0011"
  {
    assert HexUid.ByteHex(-1) == "FF";
    assert HexUid.ByteHex(0) == "00";
    assert HexUid.ByteHex(17) == "11";
  }

  /** Deactivating UIDs A1 and B2 where the request for A1 completes and
      the one for B2 raises an exception: both are attempted, in order, and
      B2 alone is reported. */
  method DeactivationExample() returns (attempts: seq<Attempt>)
    ensures attempts == [Attempt("A1", true), Attempt("B2", false)]
    ensures Failed(attempts) == ["B2"]
  {
    attempts := Deactivate(["A1", "B2"], uid => uid == "A1");
    assert Failed(attempts[1..]) == ["B2"];
  }
}
