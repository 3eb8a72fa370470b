/**
 * `string.Split(separator, TrimEntries | RemoveEmptyEntries)`: cut a string at
 * every separator, trim white space off both ends of each piece, and drop
 * the pieces that end up empty.
 */
module StringSplit {

  /** `char.IsWhiteSpace`: the Unicode space separators, line and paragraph separators, and U+0009..U+000D, U+0085. */
  predicate IsWhiteSpace(c: char)
  {
    || 0x09 <= c as int <= 0x0D
    || c as int == 0x20
    || c as int == 0x85
    || c as int == 0xA0
    || c as int == 0x1680
    || 0x2000 <= c as int <= 0x200A
    || c as int == 0x2028
    || c as int == 0x2029
    || c as int == 0x202F
    || c as int == 0x205F
    || c as int == 0x3000
  }

  /** The last code point of the Basic Multilingual Plane: one above it takes two UTF-16 code units. */
  const MaxBmp: int := 0xFFFF

  /** `string.Length`: the number of UTF-16 code units, two for a character above U+FFFF. */
  function Utf16Length(s: string): (n: nat)
    ensures |s| <= n <= 2 * |s|
  {
    if s == [] then 0 else (if s[0] as int > MaxBmp then 2 else 1) + Utf16Length(s[1..])
  }

  /** A string is one UTF-16 code unit long iff it is a single character of the Basic Multilingual Plane. */
  lemma SingleUnit(s: string)
    ensures Utf16Length(s) == 1 <==> |s| == 1 && s[0] as int <= MaxBmp
  {
    if |s| == 1 {
      assert s[1..] == [];
    }
  }

  /** The pieces between separators, in order; a string without a separator is one piece. */
  function Fields(s: string, sep: char): (r: seq<string>)
    ensures |r| >= 1
    decreases |s|
  {
    if s == [] then [[]]
    else
      var rest := Fields(s[1..], sep);
      if s[0] == sep then [[]] + rest else [[s[0]] + rest[0]] + rest[1..]
  }

  /** The pieces glued back together with the separator between neighbours. */
  function Join(pieces: seq<string>, sep: char): string
    requires |pieces| >= 1
    decreases |pieces|
  {
    if |pieces| == 1 then pieces[0] else pieces[0] + [sep] + Join(pieces[1..], sep)
  }

  /** No piece holds the separator. */
  predicate SeparatorFree(pieces: seq<string>, sep: char)
  {
    forall i :: 0 <= i < |pieces| ==> sep !in pieces[i]
  }

  /** Splitting loses nothing: the pieces joined again give back the string, and no piece holds a separator. */
  lemma {:induction false} JoinFields(s: string, sep: char)
    ensures Join(Fields(s, sep), sep) == s
    ensures SeparatorFree(Fields(s, sep), sep)
    decreases |s|
  {
    if s != [] {
      var rest := Fields(s[1..], sep);
      JoinFields(s[1..], sep);
      if s[0] == sep {
        assert Fields(s, sep)[1..] == rest;
        assert s == [sep] + s[1..];
      } else {
        var r := Fields(s, sep);
        assert r[0] == [s[0]] + rest[0];
        if |rest| == 1 {
          assert s == [s[0]] + rest[0];
        } else {
          assert r[1..] == rest[1..];
          assert Join(rest, sep) == rest[0] + [sep] + Join(rest[1..], sep);
          assert s == [s[0]] + rest[0] + [sep] + Join(rest[1..], sep);
        }
      }
    }
  }

  /** Pieces without a separator are exactly what splitting their join gives back. */
  lemma {:induction false} FieldsOfJoin(pieces: seq<string>, sep: char)
    requires |pieces| >= 1 && SeparatorFree(pieces, sep)
    ensures Fields(Join(pieces, sep), sep) == pieces
    decreases |pieces|, |pieces[0]|
  {
    var p := pieces[0];
    if p == [] {
      if |pieces| > 1 {
        var tail := pieces[1..];
        FieldsOfJoin(tail, sep);
        assert Join(pieces, sep) == [sep] + Join(tail, sep);
        assert ([sep] + Join(tail, sep))[1..] == Join(tail, sep);
        assert pieces == [[]] + tail;
      }
    } else {
      // peel the first character off the first piece
      var shorter := [p[1..]] + pieces[1..];
      assert SeparatorFree(shorter, sep) by {
        assert forall c :: c in p[1..] ==> c in p;
      }
      FieldsOfJoin(shorter, sep);
      assert p[0] != sep by { assert p[0] in pieces[0]; }
      JoinFirst(pieces, shorter, sep);
      var j := Join(pieces, sep);
      assert j[1..] == Join(shorter, sep);
      assert p == [p[0]] + p[1..];
      assert pieces == [p] + shorter[1..];
    }
  }

  /** Joining with a longer first piece adds its first character in front. */
  lemma JoinFirst(pieces: seq<string>, shorter: seq<string>, sep: char)
    requires |pieces| >= 1 && pieces[0] != [] && shorter == [pieces[0][1..]] + pieces[1..]
    ensures Join(pieces, sep) == [pieces[0][0]] + Join(shorter, sep)
  {
    if |pieces| > 1 {
      assert shorter[1..] == pieces[1..];
    }
    assert pieces[0] == [pieces[0][0]] + pieces[0][1..];
  }

  /** How many white-space characters open the string. */
  function LeadingSpace(s: string): (k: nat)
    ensures k <= |s|
    ensures forall j :: 0 <= j < k ==> IsWhiteSpace(s[j])
    ensures k < |s| ==> !IsWhiteSpace(s[k])
    decreases |s|
  {
    if s != [] && IsWhiteSpace(s[0]) then 1 + LeadingSpace(s[1..]) else 0
  }

  /** How many white-space characters close the string. */
  function TrailingSpace(s: string): (k: nat)
    ensures k <= |s|
    ensures forall j :: |s| - k <= j < |s| ==> IsWhiteSpace(s[j])
    ensures k < |s| ==> !IsWhiteSpace(s[|s| - 1 - k])
    decreases |s|
  {
    if s != [] && IsWhiteSpace(s[|s| - 1]) then 1 + TrailingSpace(s[..|s| - 1]) else 0
  }

  /** `TrimStart()`: the string after its leading white space. */
  function TrimStart(s: string): string
  {
    s[LeadingSpace(s)..]
  }

  /** `TrimEnd()`: the string before its trailing white space. */
  function TrimEnd(s: string): string
  {
    s[..|s| - TrailingSpace(s)]
  }

  /** `Trim()`: white space removed at both ends. */
  function Trim(s: string): string
  {
    TrimEnd(TrimStart(s))
  }

  /** Neither end of the string is white space. */
  predicate Trimmed(s: string)
  {
    s == [] || (!IsWhiteSpace(s[0]) && !IsWhiteSpace(s[|s| - 1]))
  }

  /**
   * Trimming removes exactly the white space at the two ends: what is left
   * is the run of the input between them, it has no white space at either
   * end, and a string that already has none is left alone.
   */
  lemma TrimProperties(s: string)
    ensures var lo := |s| - |TrimStart(s)|;
      lo + |Trim(s)| <= |s| && Trim(s) == s[lo..lo + |Trim(s)|]
    ensures forall j :: 0 <= j < |s| - |TrimStart(s)| ==> IsWhiteSpace(s[j])
    ensures forall j :: |s| - |TrimStart(s)| + |Trim(s)| <= j < |s| ==> IsWhiteSpace(s[j])
    ensures Trimmed(Trim(s))
    ensures Trimmed(s) ==> Trim(s) == s
  {
    TrimSlice(s);
    TrimEnds(s);
    if Trimmed(s) {
      TrimOfTrimmed(s);
    }
  }

  /** Trim's result is the run of the input between the two white-space ends. */
  lemma TrimSlice(s: string)
    ensures var lo := |s| - |TrimStart(s)|;
      lo + |Trim(s)| <= |s| && Trim(s) == s[lo..lo + |Trim(s)|]
    ensures forall j :: 0 <= j < |s| - |TrimStart(s)| ==> IsWhiteSpace(s[j])
    ensures forall j :: |s| - |TrimStart(s)| + |Trim(s)| <= j < |s| ==> IsWhiteSpace(s[j])
  {
    var lo := LeadingSpace(s);
    var t := s[lo..];
    var hi := |t| - TrailingSpace(t);
    assert Trim(s) == t[..hi] == s[lo..lo + hi];
    forall j | lo + hi <= j < |s|
      ensures IsWhiteSpace(s[j])
    {
      assert s[j] == t[j - lo];
    }
  }

  /** Neither end of Trim's result is white space. */
  lemma TrimEnds(s: string)
    ensures Trimmed(Trim(s))
  {
    var lo := LeadingSpace(s);
    var t := s[lo..];
    var hi := |t| - TrailingSpace(t);
    if hi > 0 {
      assert Trim(s) == t[..hi];
      assert t[0] == s[lo];
    }
  }

  /** Trim leaves a string with no white space at either end alone. */
  lemma TrimOfTrimmed(s: string)
    requires Trimmed(s)
    ensures Trim(s) == s
  {
    assert LeadingSpace(s) == 0;
    assert TrailingSpace(s) == 0;
  }

  /** Every character of a trimmed string comes from the input. */
  lemma TrimKeepsCharacters(s: string)
    ensures forall c :: c in Trim(s) ==> c in s
  {
    TrimSlice(s);
    var lo := |s| - |TrimStart(s)|;
    forall c | c in Trim(s)
      ensures c in s
    {
      var i :| 0 <= i < |Trim(s)| && Trim(s)[i] == c;
      assert s[lo + i] == c;
    }
  }

  /** What Split keeps of a piece: something non-empty with no white space at either end. */
  predicate Entry(s: string)
  {
    s != [] && Trimmed(s)
  }

  /** The trimmed pieces that are not empty, in order. */
  function Cleaned(pieces: seq<string>): (r: seq<string>)
    ensures |r| <= |pieces|
  {
    if pieces == [] then []
    else
      var t := Trim(pieces[0]);
      (if t == [] then [] else [t]) + Cleaned(pieces[1..])
  }

  /** Every cleaned piece is non-empty and trimmed. */
  lemma {:induction false} CleanedShape(pieces: seq<string>)
    ensures forall i :: 0 <= i < |Cleaned(pieces)| ==> Entry(Cleaned(pieces)[i])
  {
    if pieces != [] {
      var t := Trim(pieces[0]);
      var rest := Cleaned(pieces[1..]);
      CleanedShape(pieces[1..]);
      if t != [] {
        TrimEnds(pieces[0]);
        assert Cleaned(pieces) == [t] + rest;
      }
    }
  }

  /** `s.Split(sep, StringSplitOptions.TrimEntries | StringSplitOptions.RemoveEmptyEntries)`. */
  function Entries(s: string, sep: char): seq<string>
  {
    Cleaned(Fields(s, sep))
  }

  /** A piece that does not change under Cleaned keeps no separator. */
  lemma {:induction false} CleanedSeparatorFree(pieces: seq<string>, sep: char)
    requires SeparatorFree(pieces, sep)
    ensures SeparatorFree(Cleaned(pieces), sep)
  {
    if pieces != [] {
      TrimKeepsCharacters(pieces[0]);
      CleanedSeparatorFree(pieces[1..], sep);
    }
  }

  /** No entry is empty, none has white space at an end, and none holds a separator. */
  lemma EntriesShape(s: string, sep: char)
    ensures forall i :: 0 <= i < |Entries(s, sep)| ==> Entry(Entries(s, sep)[i])
    ensures SeparatorFree(Entries(s, sep), sep)
  {
    JoinFields(s, sep);
    CleanedShape(Fields(s, sep));
    CleanedSeparatorFree(Fields(s, sep), sep);
  }

  /** Non-empty trimmed pieces without separators survive cleaning unchanged. */
  lemma {:induction false} CleanedKeeps(pieces: seq<string>)
    requires forall i :: 0 <= i < |pieces| ==> Entry(pieces[i])
    ensures Cleaned(pieces) == pieces
  {
    if pieces != [] {
      TrimOfTrimmed(pieces[0]);
      CleanedKeeps(pieces[1..]);
    }
  }

  /**
   * Entries undo a join: non-empty trimmed entries without separators, joined
   * with the separator, split back into themselves.
   */
  lemma EntriesOfJoin(entries: seq<string>, sep: char)
    requires |entries| >= 1 && SeparatorFree(entries, sep)
    requires forall i :: 0 <= i < |entries| ==> Entry(entries[i])
    ensures Entries(Join(entries, sep), sep) == entries
  {
    FieldsOfJoin(entries, sep);
    CleanedKeeps(entries);
  }

  /** The empty string has no entries. */
  lemma EntriesOfEmpty(sep: char)
    ensures Entries([], sep) == []
  {
  }
}
