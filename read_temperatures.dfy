/**
 * The `temperatures` command's checks before it builds a line-mode manager:
 * the `;`-separated address list becomes address bytes, the `;`-separated
 * correction list becomes a dictionary keyed by position, and the two must
 * have the same length. Dictionary keys are held as the integer value of
 * their byte, and `decimal.TryParse` is the parameter `parse`.
 */
module ReadTemperatures {
  import opened Wrappers
  import opened Bytes
  import opened Codec
  import opened StringSplit
  import OptrisCT

  /** The separator of both option lists. */
  const ListSeparator: char := ';'

  /** Why the command stops before any device is contacted. */
  datatype CommandError =
    | InvalidAddressEntry                                     // "Only addresses from 1 to 4 are allowed"
    | CorrectionForUnknownAddress(correction: string, address: int)
    | InvalidCorrection(correction: string)
    | DuplicateCorrectionKey                                  // Dictionary.Add throws on a repeated key
    | CountMismatch(addresses: nat, corrections: nat)

  /** `decimal.TryParse` with invariant culture: None when the text is no number. */
  type Parser = string -> Option<real>

  /** The entries of an optional list; null and the empty string have none. */
  function ListEntries(text: Option<string>): seq<string>
  {
    if text.None? || |text.value| == 0 then [] else Entries(text.value, ListSeparator)
  }

  // ---------------------------------------------------------------------------
  // Addresses

  /** `(byte)(c - 48)`: the character code minus that of '0', low 8 bits kept. */
  function AddressByte(c: char): byte
  {
    ((c as int - 48) % 256) as byte
  }

  /** What SplitAddresses gives for a list of entries. */
  function AddressBytes(entries: seq<string>): Result<seq<byte>, CommandError>
    decreases |entries|
  {
    if entries == [] then Success([])
    else if Utf16Length(entries[0]) != 1 then Failure(InvalidAddressEntry)
    else
      match AddressBytes(entries[1..])
      case Failure(e) => Failure(e)
      case Success(rest) => Success([AddressByte(entries[0][0])] + rest)
  }

  /** The entry is a single UTF-16 code unit: one character of the Basic Multilingual Plane. */
  predicate OneUnit(entry: string)
  {
    |entry| == 1 && entry[0] as int <= MaxBmp
  }

  /**
   * The split succeeds iff every entry is one UTF-16 code unit, and then
   * yields one byte per entry, in order; the only failure is the
   * address-entry error.
   */
  lemma {:induction false} AddressBytesSpec(entries: seq<string>)
    ensures AddressBytes(entries).Success? <==> forall i :: 0 <= i < |entries| ==> OneUnit(entries[i])
    ensures AddressBytes(entries).Failure? ==> AddressBytes(entries).error == InvalidAddressEntry
    ensures AddressBytes(entries).Success? ==>
      && |AddressBytes(entries).value| == |entries|
      && forall i :: 0 <= i < |entries| ==> AddressBytes(entries).value[i] == AddressByte(entries[i][0])
  {
    if entries != [] {
      AddressBytesSpec(entries[1..]);
      SingleUnit(entries[0]);
      if AddressBytes(entries).Success? {
        var rest := AddressBytes(entries[1..]).value;
        forall i | 0 <= i < |entries|
          ensures OneUnit(entries[i]) && AddressBytes(entries).value[i] == AddressByte(entries[i][0])
        {
          if i > 0 {
            assert entries[1..][i - 1] == entries[i];
          }
        }
      } else if OneUnit(entries[0]) {
        var i :| 0 <= i < |entries[1..]| && !OneUnit(entries[1..][i]);
        assert !OneUnit(entries[i + 1]);
      }
    }
  }

  /**
   * `SplitAddresses`: each trimmed, non-empty entry of a `;`-separated list
   * must be a single UTF-16 code unit, which becomes the byte `c - '0'`. Nothing is
   * range-checked here.
   */
  method SplitAddresses(addresses: Option<string>) returns (r: Result<seq<byte>, CommandError>)
    ensures r == AddressBytes(ListEntries(addresses))
  {
    var addrBytes: seq<byte> := [];
    if !(addresses.None? || |addresses.value| == 0) {
      var entries := Entries(addresses.value, ListSeparator);
      for i := 0 to |entries|
        invariant |addrBytes| == i
        invariant forall h :: 0 <= h < i ==> OneUnit(entries[h]) && addrBytes[h] == AddressByte(entries[h][0])
      {
        SingleUnit(entries[i]);
        if Utf16Length(entries[i]) != 1 {
          AddressBytesSpec(entries);
          return Failure(InvalidAddressEntry);
        }
        addrBytes := addrBytes + [AddressByte(entries[i][0])];
      }
      AddressBytesSpec(entries);
      assert addrBytes == AddressBytes(entries).value;
    }
    return Success(addrBytes);
  }

  /** The character an address is written with. */
  function Digit(a: byte): char
    requires a < 10
  {
    (48 + a as int) as char
  }

  /** One entry per address, each the address's digit. */
  function DigitEntries(list: seq<byte>): (r: seq<string>)
    requires forall i :: 0 <= i < |list| ==> list[i] < 10
    ensures |r| == |list| && forall i :: 0 <= i < |list| ==> r[i] == [Digit(list[i])]
  {
    seq(|list|, i requires 0 <= i < |list| => [Digit(list[i])])
  }

  /** The list an operator types for some addresses: one digit each, `;` between them. */
  function AddressText(list: seq<byte>): string
    requires forall i :: 0 <= i < |list| ==> list[i] < 10
  {
    if list == [] then "" else Join(DigitEntries(list), ListSeparator)
  }

  /** Splitting the typed list of addresses gives back exactly those addresses. */
  lemma AddressTextRoundTrip(list: seq<byte>)
    requires forall i :: 0 <= i < |list| ==> list[i] < 10
    ensures AddressBytes(ListEntries(Some(AddressText(list)))) == Success(list)
  {
    if list != [] {
      DigitEntriesSplit(list);
      assert |AddressText(list)| > 0;
      DigitAddresses(list);
    }
  }

  /** Each digit entry reads back as its address. */
  lemma DigitAddresses(list: seq<byte>)
    requires forall i :: 0 <= i < |list| ==> list[i] < 10
    ensures AddressBytes(DigitEntries(list)) == Success(list)
  {
    var entries := DigitEntries(list);
    AddressBytesSpec(entries);
    forall i | 0 <= i < |list|
      ensures AddressBytes(entries).value[i] == list[i]
    {
      DigitByte(list[i]);
    }
    assert AddressBytes(entries).value == list;
  }

  /** The digit entries survive being joined and split again. */
  lemma DigitEntriesSplit(list: seq<byte>)
    requires |list| >= 1 && forall i :: 0 <= i < |list| ==> list[i] < 10
    ensures Entries(Join(DigitEntries(list), ListSeparator), ListSeparator) == DigitEntries(list)
  {
    var entries := DigitEntries(list);
    forall i | 0 <= i < |entries|
      ensures entries[i] != [] && Trimmed(entries[i]) && ListSeparator !in entries[i]
    {
      DigitByte(list[i]);
    }
    EntriesOfJoin(entries, ListSeparator);
  }

  /** A digit's character reads back as its value. */
  lemma DigitByte(a: byte)
    requires a < 10
    ensures AddressByte(Digit(a)) == a && !IsWhiteSpace(Digit(a)) && Digit(a) != ListSeparator
  {
    IntAsByte(a as int);
  }

  /** An empty or missing list splits into no addresses. */
  lemma NoAddresses(addresses: Option<string>)
    requires addresses.None? || addresses == Some("")
    ensures AddressBytes(ListEntries(addresses)) == Success([])
  {
  }

  /**
   * Without a range check, a character 256 code points above '1' is read as
   * address 1 and passes the manager's range check.
   */
  lemma WrappedCharacterAddress()
    ensures AddressBytes(ListEntries(Some("ı"))) == Success([1])
    ensures OptrisCT.ValidAddress(1)
  {
    var c := 'ı';
    assert c as int == 0x131;
    assert AddressByte(c) == 1 by {
      assert c as int - 48 == 256 + 1;
    }
    SingleCharacter(c);
    assert "ı" == [c];
  }

  /**
   * U+10131 would wrap to address 1 as well, but it is two UTF-16 code units
   * long and the list is refused.
   */
  lemma SupplementaryCharacterRefused()
    ensures AddressBytes(ListEntries(Some([0x10131 as char]))) == Failure(InvalidAddressEntry)
  {
    SingleCharacter(0x10131 as char);
  }

  /**
   * A list of one character that is neither white space nor the separator
   * is one address when the character is one UTF-16 code unit, and is
   * refused when it takes two.
   */
  lemma SingleCharacter(c: char)
    requires !IsWhiteSpace(c) && c != ListSeparator
    ensures c as int <= MaxBmp ==> AddressBytes(ListEntries(Some([c]))) == Success([AddressByte(c)])
    ensures c as int > MaxBmp ==> AddressBytes(ListEntries(Some([c]))) == Failure(InvalidAddressEntry)
  {
    var entries := [[c]];
    SingleUnit([c]);
    assert Trimmed(entries[0]);
    assert SeparatorFree(entries, ListSeparator);
    EntriesOfJoin(entries, ListSeparator);
    assert Join(entries, ListSeparator) == [c];
    assert ListEntries(Some([c])) == entries;
    assert AddressBytes(entries[1..]) == Success([]);
    assert [AddressByte(c)] + [] == [AddressByte(c)];
  }

  // ---------------------------------------------------------------------------
  // Corrections

  /** `corr.Replace(",", ".")`. */
  function CommaToPoint(s: string): (r: string)
    ensures |r| == |s|
    ensures forall i :: 0 <= i < |s| ==> r[i] == (if s[i] == ',' then '.' else s[i])
  {
    if s == [] then []
    else [if s[0] == ',' then '.' else s[0]] + CommaToPoint(s[1..])
  }

  /** The values of the listed address bytes, in order. */
  function Ints(list: seq<byte>): (r: seq<int>)
    ensures |r| == |list|
    ensures forall i :: 0 <= i < |list| ==> r[i] == list[i] as int
  {
    if list == [] then [] else [list[0] as int] + Ints(list[1..])
  }

  /**
   * The loop of SplitCorrections from entry `pos` on, with the byte counter
   * `index` (held as its value) and the dictionary `acc` so far: the counter
   * must be a listed address (checked before the entry is parsed), the entry
   * must parse, and the value is stored under the counter, which then wraps
   * to the next byte.
   */
  function CorrectionsFrom(entries: seq<string>, listed: seq<int>, parse: Parser,
                           pos: nat, index: int, acc: map<int, real>): Result<map<int, real>, CommandError>
    decreases |entries| - pos
  {
    if pos >= |entries| then Success(acc)
    else
      var corr := entries[pos];
      if index !in listed then Failure(CorrectionForUnknownAddress(corr, index))
      else
        match parse(CommaToPoint(corr))
        case None => Failure(InvalidCorrection(corr))
        case Some(v) =>
          if index in acc then Failure(DuplicateCorrectionKey)
          else CorrectionsFrom(entries, listed, parse, pos + 1, (index + 1) % 256, acc[index := v])
  }

  /** What SplitCorrections gives for a list of entries. */
  function Corrections(entries: seq<string>, addresses: seq<byte>, parse: Parser): Result<map<int, real>, CommandError>
  {
    CorrectionsFrom(entries, Ints(addresses), parse, 0, 1, map[])
  }

  /** The value entry i parses to, if it parses. */
  function Parsed(entries: seq<string>, parse: Parser, i: nat): Option<real>
    requires i < |entries|
  {
    parse(CommaToPoint(entries[i]))
  }

  /** Entry i is acceptable: its position's address i + 1 is listed and its text parses. */
  predicate Fine(entries: seq<string>, listed: seq<int>, parse: Parser, i: nat)
    requires i < |entries|
  {
    i + 1 in listed && Parsed(entries, parse, i).Some?
  }

  /** The error for the first entry that is not acceptable: an unlisted address wins over a bad number. */
  function EntryError(entries: seq<string>, listed: seq<int>, p: nat): CommandError
    requires p < |entries|
  {
    if p + 1 !in listed then CorrectionForUnknownAddress(entries[p], p + 1)
    else InvalidCorrection(entries[p])
  }

  /** The dictionary keys after the first n entries: 1..n. */
  function Positions(n: nat): set<int>
  {
    if n == 0 then {} else Positions(n - 1) + {n}
  }

  /** The keys after n entries are the integers 1..n. */
  lemma {:induction false} InPositions(n: nat, k: int)
    ensures k in Positions(n) <==> 1 <= k <= n
  {
    if n > 0 {
      InPositions(n - 1, k);
    }
  }

  /** There are n keys after n entries. */
  lemma {:induction false} PositionsSize(n: nat)
    ensures |Positions(n)| == n
  {
    if n > 0 {
      PositionsSize(n - 1);
      InPositions(n - 1, n);
    }
  }

  /** Storing entry `pos` under pos + 1 extends the keys of the first pos entries by one. */
  lemma KeysStep(acc: map<int, real>, pos: nat, v: real)
    requires acc.Keys == Positions(pos)
    ensures pos + 1 !in acc && acc[pos + 1 := v].Keys == Positions(pos + 1)
  {
    InPositions(pos, pos + 1);
  }

  /** One accepted entry: the loop goes on from the next position with the value stored. */
  lemma CorrectionsStep(entries: seq<string>, listed: seq<int>, parse: Parser,
                        pos: nat, acc: map<int, real>)
    requires pos < |entries| && pos < 255
    requires acc.Keys == Positions(pos)
    requires Fine(entries, listed, parse, pos)
    ensures pos + 1 !in acc
    ensures CorrectionsFrom(entries, listed, parse, pos, ByteCounter(pos), acc)
      == CorrectionsFrom(entries, listed, parse, pos + 1, ByteCounter(pos + 1),
                         acc[pos + 1 := Parsed(entries, parse, pos).value])
  {
    KeysStep(acc, pos, Parsed(entries, parse, pos).value);
  }

  /** An entry that is not acceptable stops the loop with its error. */
  lemma EntryRejected(entries: seq<string>, listed: seq<int>, parse: Parser,
                      pos: nat, acc: map<int, real>)
    requires pos < |entries| && pos < 255
    requires !Fine(entries, listed, parse, pos)
    ensures CorrectionsFrom(entries, listed, parse, pos, ByteCounter(pos), acc)
      == Failure(EntryError(entries, listed, pos))
  {
  }

  /** A loop that goes on past an entry accepted it. */
  lemma EntryAccepted(entries: seq<string>, listed: seq<int>, parse: Parser,
                      pos: nat, acc: map<int, real>)
    requires pos < |entries| && pos < 255
    requires CorrectionsFrom(entries, listed, parse, pos, ByteCounter(pos), acc).Success?
    ensures Fine(entries, listed, parse, pos)
  {
  }

  /**
   * One step of a successful split: the entry was acceptable, its value went
   * under the fresh key pos + 1, and the rest of the loop still ends in `m`.
   */
  lemma Advance(entries: seq<string>, listed: seq<int>, parse: Parser,
                pos: nat, acc: map<int, real>, m: map<int, real>)
    requires pos < |entries| <= 255
    requires acc.Keys == Positions(pos)
    requires CorrectionsFrom(entries, listed, parse, pos, ByteCounter(pos), acc) == Success(m)
    ensures Fine(entries, listed, parse, pos) && pos + 1 !in acc
    ensures var acc' := acc[pos + 1 := Parsed(entries, parse, pos).value];
      && acc'.Keys == Positions(pos + 1)
      && CorrectionsFrom(entries, listed, parse, pos + 1, ByteCounter(pos + 1), acc') == Success(m)
  {
    EntryAccepted(entries, listed, parse, pos, acc);
    CorrectionsStep(entries, listed, parse, pos, acc);
    KeysStep(acc, pos, Parsed(entries, parse, pos).value);
  }

  /** Up to 255 corrections: the split succeeds iff every entry is acceptable. */
  lemma {:induction false} CorrectionsFromSucceeds(entries: seq<string>, listed: seq<int>, parse: Parser,
                                                   pos: nat, acc: map<int, real>)
    requires pos <= |entries| <= 255
    requires acc.Keys == Positions(pos)
    ensures CorrectionsFrom(entries, listed, parse, pos, ByteCounter(pos), acc).Success?
      <==> forall i :: pos <= i < |entries| ==> Fine(entries, listed, parse, i)
    decreases |entries| - pos
  {
    if pos < |entries| {
      if Fine(entries, listed, parse, pos) {
        var v := Parsed(entries, parse, pos).value;
        CorrectionsStep(entries, listed, parse, pos, acc);
        KeysStep(acc, pos, v);
        CorrectionsFromSucceeds(entries, listed, parse, pos + 1, acc[pos + 1 := v]);
      } else {
        EntryRejected(entries, listed, parse, pos, acc);
      }
    }
  }

  /** Entry i parsed, and its value is stored under key i + 1. */
  predicate Stored(entries: seq<string>, parse: Parser, m: map<int, real>, i: nat)
    requires i < |entries|
  {
    i + 1 in m && Parsed(entries, parse, i) == Some(m[i + 1])
  }

  /**
   * Up to 255 corrections: on success the keys are exactly those of the
   * entries, and what was stored before stays.
   */
  lemma {:induction false} CorrectionsFromKeys(entries: seq<string>, listed: seq<int>, parse: Parser,
                                               pos: nat, acc: map<int, real>, m: map<int, real>)
    requires pos <= |entries| <= 255
    requires acc.Keys == Positions(pos)
    requires CorrectionsFrom(entries, listed, parse, pos, ByteCounter(pos), acc) == Success(m)
    ensures m.Keys == Positions(|entries|)
    ensures forall k :: k in acc ==> k in m && m[k] == acc[k]
    decreases |entries| - pos
  {
    if pos < |entries| {
      Advance(entries, listed, parse, pos, acc, m);
      var v := Parsed(entries, parse, pos).value;
      CorrectionsFromKeys(entries, listed, parse, pos + 1, acc[pos + 1 := v], m);
    }
  }

  /** Up to 255 corrections: on success entry i is stored under key i + 1. */
  lemma CorrectionsFromValues(entries: seq<string>, listed: seq<int>, parse: Parser,
                              pos: nat, acc: map<int, real>, m: map<int, real>)
    requires pos <= |entries| <= 255
    requires acc.Keys == Positions(pos)
    requires CorrectionsFrom(entries, listed, parse, pos, ByteCounter(pos), acc) == Success(m)
    ensures forall i :: pos <= i < |entries| ==> Stored(entries, parse, m, i)
  {
    forall i | pos <= i < |entries|
      ensures Stored(entries, parse, m, i)
    {
      StoredAt(entries, listed, parse, pos, acc, m, i);
    }
  }

  /** The value of one entry survives the rest of a successful split. */
  lemma {:induction false} StoredAt(entries: seq<string>, listed: seq<int>, parse: Parser,
                                    pos: nat, acc: map<int, real>, m: map<int, real>, i: nat)
    requires pos <= i < |entries| <= 255
    requires acc.Keys == Positions(pos)
    requires CorrectionsFrom(entries, listed, parse, pos, ByteCounter(pos), acc) == Success(m)
    ensures Stored(entries, parse, m, i)
    decreases i - pos
  {
    Advance(entries, listed, parse, pos, acc, m);
    var acc' := acc[pos + 1 := Parsed(entries, parse, pos).value];
    if i == pos {
      CorrectionsFromKeys(entries, listed, parse, pos + 1, acc', m);
      assert pos + 1 in acc';
    } else {
      StoredAt(entries, listed, parse, pos + 1, acc', m, i);
    }
  }

  /**
   * The first entry that is not acceptable decides the failure: its address
   * check comes before its number is parsed.
   */
  lemma {:induction false} CorrectionsFromFailure(entries: seq<string>, listed: seq<int>, parse: Parser,
                                                  pos: nat, acc: map<int, real>, p: nat)
    requires pos <= p < |entries| && p < 255
    requires acc.Keys == Positions(pos)
    requires forall i :: pos <= i < p ==> Fine(entries, listed, parse, i)
    requires !Fine(entries, listed, parse, p)
    ensures CorrectionsFrom(entries, listed, parse, pos, ByteCounter(pos), acc) == Failure(EntryError(entries, listed, p))
    decreases p - pos
  {
    if pos < p {
      assert Fine(entries, listed, parse, pos);
      var v := Parsed(entries, parse, pos).value;
      CorrectionsStep(entries, listed, parse, pos, acc);
      KeysStep(acc, pos, v);
      CorrectionsFromFailure(entries, listed, parse, pos + 1, acc[pos + 1 := v], p);
    } else {
      EntryRejected(entries, listed, parse, pos, acc);
    }
  }

  /** A successful split of any length accepted each of its first 255 entries. */
  lemma {:induction false} CorrectionsAccepted(entries: seq<string>, listed: seq<int>, parse: Parser,
                                               pos: nat, acc: map<int, real>, p: nat)
    requires pos <= p < |entries| && p < 255
    requires acc.Keys == Positions(pos)
    requires CorrectionsFrom(entries, listed, parse, pos, ByteCounter(pos), acc).Success?
    ensures Fine(entries, listed, parse, p)
    decreases p - pos
  {
    EntryAccepted(entries, listed, parse, pos, acc);
    if pos < p {
      var v := Parsed(entries, parse, pos).value;
      CorrectionsStep(entries, listed, parse, pos, acc);
      KeysStep(acc, pos, v);
      CorrectionsAccepted(entries, listed, parse, pos + 1, acc[pos + 1 := v], p);
    }
  }

  /** An empty or missing correction list gives an empty dictionary. */
  lemma NoCorrections(corrections: Option<string>, addresses: seq<byte>, parse: Parser)
    requires corrections.None? || corrections == Some("")
    ensures Corrections(ListEntries(corrections), addresses, parse) == Success(map[])
  {
  }

  /**
   * `SplitCorrections`: the i-th non-empty correction (from 1) is stored under
   * key i, provided i is a listed address and the text, with `,` read as `.`,
   * parses as a number.
   */
  method SplitCorrections(corrections: Option<string>, addresses: seq<byte>, parse: Parser)
    returns (r: Result<map<int, real>, CommandError>)
    ensures r == Corrections(ListEntries(corrections), addresses, parse)
  {
    var corrBytes: map<int, real> := map[];
    if !(corrections.None? || |corrections.value| == 0) {
      var entries := Entries(corrections.value, ListSeparator);
      var listed := Ints(addresses);
      var index := 1;  // a byte: the increment wraps at 256
      for pos := 0 to |entries|
        invariant CorrectionsFrom(entries, listed, parse, pos, index, corrBytes) == Corrections(entries, addresses, parse)
      {
        var corr := entries[pos];
        var cultureInvariantCorr := CommaToPoint(corr);
        if index !in listed {
          return Failure(CorrectionForUnknownAddress(corr, index));
        }
        var decimalValue := parse(cultureInvariantCorr);
        if decimalValue.None? {
          return Failure(InvalidCorrection(corr));
        }
        if index in corrBytes {
          return Failure(DuplicateCorrectionKey);
        }
        corrBytes := corrBytes[index := decimalValue.value];
        index := (index + 1) % 256;
      }
    }
    return Success(corrBytes);
  }

  // ---------------------------------------------------------------------------
  // The checks of ExecuteCommand before the manager is built

  /** The addresses and the corrections, or the first check that failed. */
  function Validate(addresses: Option<string>, corrections: Option<string>, parse: Parser)
    : Result<(seq<byte>, map<int, real>), CommandError>
  {
    match AddressBytes(ListEntries(addresses))
    case Failure(e) => Failure(e)
    case Success(list) =>
      match Corrections(ListEntries(corrections), list, parse)
      case Failure(e) => Failure(e)
      case Success(m) =>
        if |list| != |m| then Failure(CountMismatch(|list|, |m|)) else Success((list, m))
  }

  /** Split the addresses, split the corrections, and require as many of each. */
  method CheckOptions(addresses: Option<string>, corrections: Option<string>, parse: Parser)
    returns (r: Result<(seq<byte>, map<int, real>), CommandError>)
    ensures r == Validate(addresses, corrections, parse)
  {
    var splitAddresses := SplitAddresses(addresses);
    if splitAddresses.Failure? {
      return Failure(splitAddresses.error);
    }
    var splitCorrections := SplitCorrections(corrections, splitAddresses.value, parse);
    if splitCorrections.Failure? {
      return Failure(splitCorrections.error);
    }
    var list, m := splitAddresses.value, splitCorrections.value;
    if |list| != |m| {
      return Failure(CountMismatch(|list|, |m|));
    }
    return Success((list, m));
  }

  /** Addresses without corrections never reach the manager. */
  lemma AddressesNeedCorrections(addresses: Option<string>, corrections: Option<string>, parse: Parser)
    requires corrections.None? || corrections == Some("")
    requires AddressBytes(ListEntries(addresses)).Success? && |AddressBytes(ListEntries(addresses)).value| > 0
    ensures Validate(addresses, corrections, parse) == Failure(CountMismatch(|AddressBytes(ListEntries(addresses)).value|, 0))
  {
    NoCorrections(corrections, AddressBytes(ListEntries(addresses)).value, parse);
  }

  /** The distinct values of a list of addresses. */
  function Distinct(list: seq<byte>): set<int>
  {
    set a | a in Ints(list)
  }

  /** A list has no more distinct values than elements. */
  lemma {:induction false} DistinctSize(list: seq<byte>)
    ensures |Distinct(list)| <= |list|
  {
    if list != [] {
      DistinctSize(list[1..]);
      assert Distinct(list) == Distinct(list[1..]) + {list[0] as int} by {
        assert Ints(list) == [list[0] as int] + Ints(list[1..]);
      }
    }
  }

  /** A set that is not empty has a member. */
  lemma Member(s: set<int>)
    requires s != {}
    ensures exists x :: x in s
  {
    if forall x :: x !in s {
      assert false;
    }
  }

  /** A subset is no larger than its superset. */
  lemma {:induction false} SubsetSize(small: set<int>, big: set<int>)
    requires small <= big
    ensures |small| <= |big|
    decreases big
  {
    if small != {} {
      Member(small);
      var x :| x in small;
      SubsetSize(small - {x}, big - {x});
    }
  }

  /** A subset at least as large as its superset is the whole superset. */
  lemma SubsetFull(small: set<int>, big: set<int>)
    requires small <= big && |big| <= |small|
    ensures small == big
  {
    assert small * big == small;
    assert small + big == big;
    assert |big - small| == 0;
  }

  /** The keys of a checked correction list: 1..n when its n <= 255 entries passed. */
  lemma CheckedKeys(entries: seq<string>, list: seq<byte>, parse: Parser)
    requires |entries| <= 255 && Corrections(entries, list, parse).Success?
    ensures Corrections(entries, list, parse).value.Keys == Positions(|entries|)
    ensures |Corrections(entries, list, parse).value| == |entries|
  {
    CorrectionsFromKeys(entries, Ints(list), parse, 0, map[], Corrections(entries, list, parse).value);
    PositionsSize(|entries|);
  }

  /** Every key of an accepted prefix of the corrections is a listed address. */
  lemma ListedAccepted(entries: seq<string>, list: seq<byte>, parse: Parser, n: nat)
    requires n <= |entries| && n <= 255 && Corrections(entries, list, parse).Success?
    ensures Positions(n) <= Distinct(list)
  {
    forall k | k in Positions(n)
      ensures k in Distinct(list)
    {
      InPositions(n, k);
      CounterListed(entries, list, parse, k - 1);
    }
  }

  /** The key of an accepted position is a listed address. */
  lemma CounterListed(entries: seq<string>, list: seq<byte>, parse: Parser, p: nat)
    requires p < |entries| && p < 255 && Corrections(entries, list, parse).Success?
    ensures p + 1 in Distinct(list)
  {
    CorrectionsAccepted(entries, Ints(list), parse, 0, map[], p);
  }

  /**
   * After the checks pass with at most four addresses, the listed addresses
   * are exactly 1..n for a list of n: each key 1..n was checked to be listed,
   * and n addresses leave no room for any other value.
   */
  lemma ValidatedAddresses(addresses: Option<string>, corrections: Option<string>, parse: Parser)
    requires Validate(addresses, corrections, parse).Success?
    requires |Validate(addresses, corrections, parse).value.0| <= 4
    ensures var list := Validate(addresses, corrections, parse).value.0;
      forall i :: 0 <= i < |list| ==> 1 <= list[i] as int <= |list|
  {
    var list := Validate(addresses, corrections, parse).value.0;
    var entries := ListEntries(corrections);
    var n := if |entries| < 255 then |entries| else 255;
    PositionsSize(n);
    ListedAccepted(entries, list, parse, n);
    DistinctSize(list);
    SubsetSize(Positions(n), Distinct(list));
    assert n <= 4;
    CheckedKeys(entries, list, parse);
    assert |entries| == |list|;
    SubsetFull(Positions(|list|), Distinct(list));
    forall i | 0 <= i < |list|
      ensures 1 <= list[i] as int <= |list|
    {
      assert Ints(list)[i] == list[i] as int;
      assert list[i] as int in Distinct(list);
      InPositions(|list|, list[i] as int);
    }
  }

  /** With more than four addresses, the fifth correction was stored under key 5, which had to be listed. */
  lemma FifthAddressListed(addresses: Option<string>, corrections: Option<string>, parse: Parser)
    requires Validate(addresses, corrections, parse).Success?
    requires |Validate(addresses, corrections, parse).value.0| > 4
    ensures 5 in Validate(addresses, corrections, parse).value.0
  {
    var list := Validate(addresses, corrections, parse).value.0;
    var entries := ListEntries(corrections);
    assert |entries| >= 5 by {
      if |entries| < 5 {
        CheckedKeys(entries, list, parse);
      }
    }
    CorrectionsAccepted(entries, Ints(list), parse, 0, map[], 4);
    var j :| 0 <= j < |list| && Ints(list)[j] == 5;
    ByteAsInt(list[j]);
    assert list[j] == 5;
  }

  /**
   * The manager built from checked options passes its own address checks
   * exactly when there are one to four addresses: the list constructor then
   * fails only on the port.
   */
  lemma ValidatedListAccepted(addresses: Option<string>, corrections: Option<string>, parse: Parser,
                              comPort: string, portOpens: bool)
    requires Validate(addresses, corrections, parse).Success?
    ensures var list := Validate(addresses, corrections, parse).value.0;
      OptrisCT.ListCheck(comPort, list, portOpens).None? <==> |comPort| > 0 && 1 <= |list| <= 4 && portOpens
  {
    var list := Validate(addresses, corrections, parse).value.0;
    if 1 <= |list| <= 4 {
      ValidatedAddresses(addresses, corrections, parse);
    } else if |list| > 4 {
      FifthAddressListed(addresses, corrections, parse);
      var h :| 0 <= h < |list| && list[h] == 5;
      assert !OptrisCT.ValidAddress(list[h]);
    }
  }
}
