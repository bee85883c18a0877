/**
  The restriction to a host with a given adapter address.  What the NetBIOS driver answers
  is a parameter: a return code for the enumeration, and for each adapter listed a return
  code and an address.
*/
module HostCheck {
  import opened Options
  import opened TextBuffer
  import opened MacAddress

  datatype AdapterStatus = AdapterStatus(retCode: Byte, address: Mac)

  const HOST_ADDRESS: string := "90-61-AE-C0-9E-0F"

  method IsMacAddrMatch(d: Alphabet, status: AdapterStatus, macAddress: string) returns (matched: bool)
    ensures matched <==> status.retCode == 0 && IsCanonical(d, status.address, macAddress)
  {
    if 0 == status.retCode {
      var macAddrLana := new Text(Format(d, status.address));
      var space := new Text(" ");
      var zero := new Text("0");
      StringReplace(macAddrLana, space, zero);
      CanonicalIsUnique(d, status.address, macAddress);
      if macAddress == macAddrLana.chars {
        return true;
      }
    }
    return false;
  }

  /** Some adapter listed answers with an address whose canonical text is the one wanted. */
  ghost predicate HasAdapter(d: Alphabet, adapters: seq<AdapterStatus>, macAddress: string) {
    exists i :: 0 <= i < |adapters| && adapters[i].retCode == 0 && IsCanonical(d, adapters[i].address, macAddress)
  }

  /** The program goes on if and only if the enumeration succeeded and some adapter listed
      has the address; otherwise it exits. */
  method CheckHostMacAddr(d: Alphabet, enumCode: Byte, adapters: seq<AdapterStatus>, macAddress: string)
    returns (admitted: bool)
    ensures admitted <==> enumCode == 0 && HasAdapter(d, adapters, macAddress)
  {
    var macAddrMatch := false;
    if 0 == enumCode {
      for i := 0 to |adapters|
        invariant macAddrMatch <==>
                  exists k :: 0 <= k < i && adapters[k].retCode == 0 && IsCanonical(d, adapters[k].address, macAddress)
      {
        var matched := IsMacAddrMatch(d, adapters[i], macAddress);
        if true == matched {
          macAddrMatch := true;
        }
      }
    }
    return macAddrMatch;
  }

  /** If '0' is no digit of positive value, an adapter is accepted exactly for its six bytes:
      the text wanted must stand for some address, and the adapter's must be that one. */
  lemma AcceptedForItsBytes(d: Alphabet, adapters: seq<AdapterStatus>, macAddress: string)
    requires Unambiguous(d)
    ensures HasAdapter(d, adapters, macAddress) <==>
              && Parse(d, macAddress).Some?
              && exists i :: 0 <= i < |adapters| && adapters[i].retCode == 0
                             && adapters[i].address == Parse(d, macAddress).value
  {
    forall i | 0 <= i < |adapters|
      ensures Parse(d, macAddress) == Some(adapters[i].address) <==> IsCanonical(d, adapters[i].address, macAddress)
    {
      CanonicalIsUnique(d, adapters[i].address, macAddress);
      ParseInvertsCanonical(d, macAddress, adapters[i].address);
    }
  }

  /** The address in the source is written in capitals: if the formatting library writes
      capitals too, it stands for one address, and if it writes small letters, for none, so
      that no host whatever passes the check. */
  lemma HostAddressNeedsCapitals(adapters: seq<AdapterStatus>)
    ensures HasAdapter(UPPER, adapters, HOST_ADDRESS) <==>
              exists i :: 0 <= i < |adapters| && adapters[i].retCode == 0
                          && adapters[i].address == [0x90, 0x61, 0xAE, 0xC0, 0x9E, 0x0F]
    ensures !HasAdapter(LOWER, adapters, HOST_ADDRESS)
  {
    HostAddressBytes();
    AcceptedForItsBytes(UPPER, adapters, HOST_ADDRESS);
    NoCapitalInLower();
    AcceptedForItsBytes(LOWER, adapters, HOST_ADDRESS);
  }

  lemma HostAddressBytes()
    ensures Parse(UPPER, HOST_ADDRESS) == Some([0x90, 0x61, 0xAE, 0xC0, 0x9E, 0x0F])
  {
    var a: Mac := [0x90, 0x61, 0xAE, 0xC0, 0x9E, 0x0F];
    assert IsCanonical(UPPER, a, HOST_ADDRESS);
    CanonicalIsUnique(UPPER, a, HOST_ADDRESS);
    ParseInvertsCanonical(UPPER, HOST_ADDRESS, a);
  }

  lemma NoCapitalInLower()
    ensures Parse(LOWER, HOST_ADDRESS).None?
  {
    assert HOST_ADDRESS[6] == 'A';
    assert DigitFrom(LOWER, 'A', 1).None?;
    assert ParseByte(LOWER, HOST_ADDRESS, 6).None?;
  }
}
