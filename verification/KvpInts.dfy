// Arrays of integers in the table: set, printed, parsed and read back.
module KvpInts {
  import opened KvpText
  import opened KvpValidate
  import opened KvpStore
  import opened KvpTrip

  predicate Int32(v: int) { -0x8000_0000 <= v < 0x8000_0000 }

  function PrintedInts(vs: seq<int>): (ts: seq<string>)
    ensures |ts| == |vs|
  {
    seq(|vs|, i requires 0 <= i < |vs| => PrintedInt(vs[i]))
  }

  function PrintedHexes(us: seq<nat>): (ts: seq<string>)
    ensures |ts| == |us|
  {
    seq(|us|, i requires 0 <= i < |us| => PrintedHex(us[i]))
  }

  // ----- Sizes: MAX_INT_LENGTH is 12

  lemma PrintedSize(v: int)
    requires Int32(v)
    ensures 1 <= |PrintedInt(v)| <= 11
  {
    Powers();
    PrintedLength(if v < 0 then -v else v, 10, 10);
  }

  lemma PrintedHexSize(u: nat)
    requires u < 0x1_0000_0000
    ensures 1 <= |PrintedHex(u)| <= 11
  {
    Powers();
    PrintedLength(u, 16, 8);
  }

  lemma Powers()
    ensures Power(10, 10) == 10_000_000_000 && Power(16, 8) == 0x1_0000_0000
  {
    assert Power(10, 5) == 100_000 && Power(16, 4) == 0x1_0000;
  }

  /** With so many bytes for each text that one is left for its comma or final 0, the list fits. */
  lemma {:induction false} JoinedSize(ts: seq<string>, width: nat)
    requires ts != [] && forall i :: 0 <= i < |ts| ==> |ts[i]| < width
    ensures |Joined(ts)| + 1 <= |ts| * width
  {
    if |ts| > 1 {
      JoinedSize(ts[1..], width);
    }
  }

  // ----- Reading a list

  /** kvpGetIntArray's loop: each strtol goes on one character behind where the last one stopped. */
  function ReadInts(s: string, n: nat): (r: (seq<int>, bool))
    decreases n
  {
    if n == 0 then ([], true)
    else
      var (v, used) := Strtol(s, 0);
      if used == 0 then ([0], false)
      else
        var (vs, ok) := ReadInts(if used + 1 <= |s| then s[used + 1..] else "", n - 1);
        ([S32(v)] + vs, ok)
  }

  /** The values as ints of 32 bits. */
  function S32s(vs: seq<int>): (ws: seq<int>)
    ensures |ws| == |vs|
  {
    seq(|vs|, i requires 0 <= i < |vs| => S32(vs[i]))
  }

  lemma S32sCons(vs: seq<int>)
    ensures S32s([]) == []
    ensures vs != [] ==> S32s(vs) == [S32(vs[0])] + S32s(vs[1..])
  {
  }

  lemma S32sSame(vs: seq<int>)
    requires forall i :: 0 <= i < |vs| ==> Int32(vs[i])
    ensures S32s(vs) == vs
  {
  }

  /** strtol reads text t as v, whatever stops it. */
  ghost predicate Reads(t: string, v: int) {
    t != "" && forall rest :: Stops(rest) ==> Strtol(t + rest, 0) == (v, |t|)
  }

  lemma ReadOne(t: string, v: int, rest: string, n: nat)
    requires Reads(t, v) && Stops(rest)
    ensures var next := if rest == "" then "" else rest[1..];
            ReadInts(t + rest, n + 1) == ([S32(v)] + ReadInts(next, n).0, ReadInts(next, n).1)
  {
    hide Strtol, S32, Stops;
    assert Strtol(t + rest, 0) == (v, |t|);
    if rest != "" {
      assert (t + rest)[|t| + 1..] == rest[1..];
    }
  }

  /** The list of texts is read back number by number, if strtol reads each of them. */
  lemma {:induction false} ReadJoined(ts: seq<string>, vs: seq<int>)
    requires |ts| == |vs| && forall i :: 0 <= i < |ts| ==> Reads(ts[i], vs[i])
    ensures ReadInts(Joined(ts), |ts|) == (S32s(vs), true)
    decreases |ts|
  {
    S32sCons(vs);
    hide Strtol, S32, Stops, Reads, S32s;
    if ts != [] {
      var t, more := ts[0], ts[1..];
      CommaOrEnd(Joined(more));
      if |ts| == 1 {
        ReadOne(t, vs[0], "", 0);
        assert t + "" == t;
        S32sCons(vs[1..]);
      } else {
        var rest := "," + Joined(more);
        ReadOne(t, vs[0], rest, |more|);
        assert t + "," + Joined(more) == t + rest && rest[1..] == Joined(more);
        ReadJoined(more, vs[1..]);
      }
    }
  }

  lemma CommaOrEnd(s: string)
    ensures Stops("") && Stops("," + s)
  {
  }

  lemma ReadPrinted(vs: seq<int>)
    requires forall i :: 0 <= i < |vs| ==> Int32(vs[i])
    ensures ReadInts(Joined(PrintedInts(vs)), |vs|) == (vs, true)
  {
    hide Strtol, PrintedInt, Stops, ReadInts, Joined;
    var ts := PrintedInts(vs);
    forall i | 0 <= i < |ts| ensures Reads(ts[i], vs[i]) {
      PrintedSize(vs[i]);
      forall rest | Stops(rest) ensures Strtol(ts[i] + rest, 0) == (vs[i], |ts[i]|) {
        StrtolPrinted(vs[i], rest, 0);
      }
    }
    ReadJoined(ts, vs);
    S32sSame(vs);
  }

  /** Unsigned numbers come back as the ints of the same 32 bits. */
  lemma ReadHexes(us: seq<nat>)
    requires forall i :: 0 <= i < |us| ==> us[i] < 0x1_0000_0000
    ensures ReadInts(Joined(PrintedHexes(us)), |us|) == (S32s(us), true)
  {
    hide Strtol, PrintedHex, Stops, ReadInts, Joined;
    var ts := PrintedHexes(us);
    forall i | 0 <= i < |ts| ensures Reads(ts[i], us[i]) {
      PrintedHexSize(us[i]);
      forall rest | Stops(rest) ensures Strtol(ts[i] + rest, 0) == (us[i], |ts[i]|) {
        StrtolHex(us[i], rest);
      }
    }
    ReadJoined(ts, us);
  }

  // ----- The values are valid

  lemma TokenChars(t: string)
    requires IntToken(t)
    ensures ';' !in t
  {
    forall k | 0 <= k < |t| ensures t[k] != ';' {
      DigitClasses(t[k]);
    }
  }

  lemma {:induction false} JoinedChars(ts: seq<string>)
    requires AllTokens(ts)
    ensures ';' !in Joined(ts)
  {
    if ts != [] {
      TokenChars(ts[0]);
      JoinedChars(ts[1..]);
    }
  }

  lemma IntsValid(ts: seq<string>)
    requires AllTokens(ts)
    ensures Validate(Joined(ts), KT_INT) == |ts| && ';' !in Joined(ts)
  {
    TokensOfJoined(ts);
    ValidInts(Joined(ts));
    JoinedChars(ts);
  }

  /** The scanner accepts what "%i" and "%#x" print, and counts it right. */
  lemma PrintedValid(vs: seq<int>, us: seq<nat>)
    ensures Validate(Joined(PrintedInts(vs)), KT_INT) == |vs| && ';' !in Joined(PrintedInts(vs))
    ensures Validate(Joined(PrintedHexes(us)), KT_INT) == |us| && ';' !in Joined(PrintedHexes(us))
  {
    hide IntToken, PrintedInt, PrintedHex;
    forall i | 0 <= i < |vs| ensures IntToken(PrintedInts(vs)[i]) {
      PrintedIntIsToken(vs[i]);
    }
    forall i | 0 <= i < |us| ensures IntToken(PrintedHexes(us)[i]) {
      PrintedHexIsToken(us[i]);
    }
    IntsValid(PrintedInts(vs));
    IntsValid(PrintedHexes(us));
  }

  // ----- The operations on the table

  /** kvpGetIntArray: result code, the values, and how many. */
  function GetInts(s: Store, key: string, room: nat): (KvpErrorCode, seq<int>, nat)
    requires Formed(s)
  {
    var i := FindKey(s, key);
    if i < 0 then (KVP_E_NOTFOUND, [], room)
    else if s.types[i] != KT_INT then (KVP_E_BADVALUE, [], room)
    else
      var n := if 0 <= s.counts[i] <= room then s.counts[i] else room;
      var (vs, ok) := ReadInts(s.values[i], n);
      (if !ok then KVP_E_BADVALUE else if s.counts[i] > room then KVP_E_TRUNCATE else KVP_E_OK, vs, n)
  }

  predicate BadKey(key: string) {
    '=' in key || ';' in key || ',' in key || '#' in key
  }

  /** kvpSet for a value already printed. */
  function SetText(s: Store, key: string, value: string, count: int, kind: KeyType): (r: (KvpErrorCode, Store))
    requires Formed(s)
    ensures Formed(r.1) && (r.0 != KVP_E_OK ==> r.1 == s)
  {
    if FindKey(s, key) >= 0 then (KVP_E_DUPLICATE, s)
    else if |s.keys| >= MAXKEYS then (KVP_E_TOOMANY, s)
    else if kind == KT_UINT || kind == KT_INVALID then (KVP_E_BADTYPE, s)
    else if BadKey(key) then (KVP_E_BADKEY, s)
    else (KVP_E_OK, Appended(s, key, value, count, kind))
  }

  /** kvpUpdate likewise; an unsigned value may replace an int's. */
  function UpdateText(s: Store, key: string, value: string, count: int, kind: KeyType): (r: (KvpErrorCode, Store))
    requires Formed(s)
    ensures Formed(r.1) && (r.0 != KVP_E_OK ==> r.1 == s)
  {
    var i := FindKey(s, key);
    if i < 0 then (KVP_E_NOTFOUND, s)
    else if s.types[i] != kind && !(s.types[i] == KT_INT && kind == KT_UINT) then (KVP_E_BADVALUE, s)
    else if kind == KT_INVALID then (KVP_E_BADTYPE, s)
    else (KVP_E_OK, s.(values := s.values[i := value], counts := s.counts[i := count]))
  }

  /** Both keep the one valid entry a key may have. */
  lemma SetUnique(s: Store, key: string, value: string, count: int, kind: KeyType)
    requires Formed(s) && Unique(s) && TrimmedKeys(s) && Trimmed(key)
    ensures var (code, r) := SetText(s, key, value, count, kind);
            Unique(r) && TrimmedKeys(r)
    ensures var (code, r) := UpdateText(s, key, value, count, kind);
            Unique(r) && TrimmedKeys(r)
  {
    StripTrimmed(key);
  }

  // ----- Once round

  /** A lookup of entry k's key in t finds entry k's fields. */
  ghost predicate Copied(t: Store, s: Store, k: nat)
    requires Formed(t) && Formed(s) && k < |s.keys|
  {
    var j := LastIndex(t.keys, s.keys[k]);
    j >= 0 && t.values[j] == s.values[k] && t.counts[j] == s.counts[k] && t.types[j] == s.types[k]
  }

  lemma CopiedNext(t: Store, s: Store, i: nat, k: nat)
    requires Formed(t) && Formed(s) && |t.keys| < MAXKEYS && i < |s.keys| && k < |s.keys|
    requires i == k || (s.keys[i] != s.keys[k] && Copied(t, s, k))
    ensures Copied(Appended(t, s.keys[i], s.values[i], s.counts[i], s.types[i]), s, k)
  {
    var next := Appended(t, s.keys[i], s.values[i], s.counts[i], s.types[i]);
    assert next.keys[..|t.keys|] == t.keys;
  }

  /** A valid entry is found in what the valid entries were copied to, with its own fields. */
  lemma {:induction false} CopiedFound(t: Store, s: Store, i: nat, k: nat)
    requires Formed(t) && Formed(s) && Unique(s) && i <= |s.keys| && |t.keys| <= i
    requires k < |s.keys| && s.types[k] != KT_INVALID
    requires k < i ==> Copied(t, s, k)
    ensures Copied(WithValid(t, s, i), s, k)
    decreases |s.keys| - i
  {
    hide Copied;
    if i < |s.keys| {
      if s.types[i] == KT_INVALID {
        CopiedFound(t, s, i + 1, k);
      } else {
        var next := Appended(t, s.keys[i], s.values[i], s.counts[i], s.types[i]);
        if k <= i {
          CopiedNext(t, s, i, k);
        }
        CopiedFound(next, s, i + 1, k);
      }
    }
  }

  /** A valid entry survives printing and parsing: a lookup finds the same fields. */
  lemma EntrySurvives(s: Store, empty: Store, k: nat)
    requires Formed(s) && Unique(s) && TrimmedKeys(s) && AllReadable(s) && Empty(empty)
    requires k < |s.keys| && s.types[k] != KT_INVALID
    ensures var r := ParseFrom(empty, FormatFrom(s, 0));
            && r.Parsed?
            && var j := FindKey(r.store, s.keys[k]);
               j >= 0 && r.store.values[j] == s.values[k] && r.store.counts[j] == s.counts[k]
                 && r.store.types[j] == s.types[k]
  {
    hide Unique, AllReadable, FormatFrom, ParseFrom, WithValid;
    ParserUndoesPrinter(s, empty);
    StripTrimmed(s.keys[k]);
    CopiedFound(empty, s, 0, k);
  }

  /** Keys that can be printed and read back. */
  predicate GoodKey(key: string) {
    Trimmed(key) && key != "" && !Comment(key) && !BadKey(key)
  }

  lemma SetReadable(s: Store, key: string, ts: seq<string>)
    requires Formed(s) && AllReadable(s) && GoodKey(key) && |ts| < 0x8000_0000
    requires Validate(Joined(ts), KT_INT) == |ts| && ';' !in Joined(ts)
    ensures AllReadable(SetText(s, key, Joined(ts), |ts|, KT_INT).1)
    ensures AllReadable(UpdateText(s, key, Joined(ts), |ts|, KT_UINT).1)
  {
    hide Validate, Joined, Comment, Trimmed, FindKey;
    var r := SetText(s, key, Joined(ts), |ts|, KT_INT).1;
    forall i | 0 <= i < |r.keys| ensures ReadableAt(r, i) {
      if i < |s.keys| {
        assert ReadableAt(s, i);
      }
    }
    var u := UpdateText(s, key, Joined(ts), |ts|, KT_UINT).1;
    forall i | 0 <= i < |u.keys| ensures ReadableAt(u, i) {
      assert ReadableAt(s, i);
    }
  }

  /**
   * Integers through everything: set in any table that can be printed, printed,
   * parsed into an emptied table and read, the same integers come back.
   */
  lemma IntArrayTrip(s: Store, empty: Store, key: string, vs: seq<int>)
    requires Formed(s) && Unique(s) && TrimmedKeys(s) && AllReadable(s) && Empty(empty) && GoodKey(key)
    requires |vs| < 0x8000_0000 && forall i :: 0 <= i < |vs| ==> Int32(vs[i])
    requires SetText(s, key, Joined(PrintedInts(vs)), |vs|, KT_INT).0 == KVP_E_OK
    ensures var r := ParseFrom(empty, FormatFrom(SetText(s, key, Joined(PrintedInts(vs)), |vs|, KT_INT).1, 0));
            r.Parsed? && GetInts(r.store, key, |vs|) == (KVP_E_OK, vs, |vs|)
  {
    hide Joined, PrintedInts, ParseFrom, FormatFrom, Unique, AllReadable, ReadInts, TrimmedKeys, Validate;
    var text := Joined(PrintedInts(vs));
    var s1 := SetText(s, key, text, |vs|, KT_INT).1;
    PrintedValid(vs, []);
    SetUnique(s, key, text, |vs|, KT_INT);
    SetReadable(s, key, PrintedInts(vs));
    EntrySurvives(s1, empty, |s.keys|);
    ReadPrinted(vs);
  }

  /** ... and unsigned ones that replace an int's value. */
  lemma HexArrayTrip(s: Store, empty: Store, key: string, us: seq<nat>)
    requires Formed(s) && Unique(s) && TrimmedKeys(s) && AllReadable(s) && Empty(empty) && GoodKey(key)
    requires |us| < 0x8000_0000 && forall i :: 0 <= i < |us| ==> us[i] < 0x1_0000_0000
    requires FindKey(s, key) >= 0 && s.types[FindKey(s, key)] == KT_INT
    ensures var r := ParseFrom(empty, FormatFrom(UpdateText(s, key, Joined(PrintedHexes(us)), |us|, KT_UINT).1, 0));
            r.Parsed?
            && GetInts(r.store, key, |us|) == (KVP_E_OK, S32s(us), |us|)
  {
    hide Joined, PrintedHexes, ParseFrom, FormatFrom, Unique, AllReadable, ReadInts, TrimmedKeys, Validate, S32;
    var text := Joined(PrintedHexes(us));
    var s1 := UpdateText(s, key, text, |us|, KT_UINT).1;
    PrintedValid([], us);
    SetUnique(s, key, text, |us|, KT_UINT);
    SetReadable(s, key, PrintedHexes(us));
    StripTrimmed(key);
    EntrySurvives(s1, empty, FindKey(s, key));
    ReadHexes(us);
  }
}
