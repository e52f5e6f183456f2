// The key/value tables as the library keeps them: parallel arrays of places in
// one growable buffer, where the parser and the setters work in place.
module KvpTable {
  import opened KvpText
  import opened KvpValidate
  import opened KvpStore
  import opened KvpTrip
  import opened KvpInts
  import opened KvpMemory
  import opened KvpParser
  import opened KvpBuffer
  import opened KvpOps
  import opened KvpPlaces
  import opened KvpSetters
  import opened KvpSteps

  class Kvp {
    const keyPtrs: array<nat>  // offsets of the keys in the buffer
    const valPtrs: array<nat>
    const valTypes: array<KeyType>
    const nelements: array<int>
    var nkeys: nat
    var buffer: array?<char>
    var spare: nat
    var spaceLeft: int
    var lastError: KvpErrorCode

    constructor ()
      ensures Valid() && Memory() == Emptied(seq(MAXKEYS, i => KT_STRING))
    {
      keyPtrs := new nat[MAXKEYS](i => 0);
      valPtrs := new nat[MAXKEYS](i => 0);
      valTypes := new KeyType[MAXKEYS](i => KT_STRING);
      nelements := new int[MAXKEYS](i => 0);
      nkeys, buffer, spare, spaceLeft := 0, null, 0, 0;
      lastError := KVP_E_OK;
      new;
      assert valTypes[..] == seq(MAXKEYS, i => KT_STRING);
    }

    ghost predicate Shape()
      reads this`nkeys, this`buffer
    {
      && keyPtrs.Length == valPtrs.Length == valTypes.Length == nelements.Length == MAXKEYS
      && keyPtrs != valPtrs && nkeys <= MAXKEYS && (buffer != null ==> buffer.Length > 0)
    }

    /** The tables as a value. */
    ghost function Memory(): (t: Tab)
      requires Shape()
      reads this`nkeys, this`buffer, this`spare, buffer, keyPtrs, valPtrs, valTypes, nelements
    {
      Tab(if buffer == null then "" else buffer[..],
          keyPtrs[..nkeys], valPtrs[..nkeys], nelements[..nkeys], valTypes[..], spare)
    }

    ghost predicate Valid()
      reads this`nkeys, this`buffer, this`spare, this`spaceLeft, buffer, keyPtrs, valPtrs, valTypes, nelements
    {
      Shape() && Shaped(Memory()) && spaceLeft == SpaceLeft(Memory())
    }

    // ----- The buffer

    /** kvpReset: no entries and no buffer; the types stay. */
    method Reset()
      requires Valid()
      modifies this`nkeys, this`buffer, this`spare, this`spaceLeft
      ensures Valid() && Memory() == Emptied(old(Memory()).types)
    {
      buffer := null;
      spare, spaceLeft, nkeys := 0, 0, 0;
    }

    /** kvpInit; what the new buffer holds is whatever the memory held. */
    method Init(size: nat) returns (ghost fill: Garbage)
      requires Valid() && nkeys == 0
      modifies this`buffer, this`spare, this`spaceLeft
      ensures Valid() && Memory() == Initial(old(Memory()), size, fill) && fresh(buffer)
      ensures spaceLeft == if size > 20480 then size else 20480
    {
      var n := if size > KVP_MIN_BUFFER_SIZE then size else KVP_MIN_BUFFER_SIZE;
      buffer := new char[n];
      spare := 0;
      spaceLeft := n;
      fill := Held(buffer[..]);
      HeldFresh(buffer[..]);
      assert Memory() == Initial(old(Memory()), size, fill);
    }

    /** kvpRealloc: every text is copied to the front of a larger buffer, and its place is noted anew. */
    method Realloc(minExtension: nat) returns (ghost fill: Garbage)
      requires Valid() && buffer != null && Fits(Memory(), minExtension)
      modifies this`buffer, this`spare, this`spaceLeft, keyPtrs, valPtrs
      ensures Valid() && Memory() == Grown(old(Memory()), minExtension, fill) && fresh(buffer)
      ensures View(Memory()) == old(View(Memory())) && Settled(Memory()) && spaceLeft >= minExtension
      ensures spaceLeft == buffer.Length - Live(View(Memory()))
    {
      hide StrLen, CStr, LiveTo, View, Copies, Put, Steady;
      ghost var t := Memory();
      var extension := if minExtension < KVP_MIN_BUFFER_SIZE then KVP_MIN_BUFFER_SIZE else minExtension;
      var newSize := buffer.Length + extension;
      var newBuffer := new char[newSize];
      ghost var was := newBuffer[..];
      spare, spaceLeft := 0, newSize;
      CopyTexts(newBuffer, t);
      buffer := newBuffer;
      fill := Held(was);
      HeldFresh(was);
      GrownKeeps(t, minExtension, fill);
      GrownParts(t, minExtension, fill);
      assert Memory() == Grown(t, minExtension, fill);
    }

    /** ... the loop that copies. */
    method CopyTexts(to: array<char>, ghost t: Tab)
      requires Shape() && buffer != null && Shaped(t) && t.mem == buffer[..] && to != buffer
          && Live(View(t)) <= to.Length
      requires nkeys == |t.keyAt| && keyPtrs[..nkeys] == t.keyAt && valPtrs[..nkeys] == t.valAt
      requires spare == 0 && spaceLeft == to.Length
      modifies this`spare, this`spaceLeft, keyPtrs, valPtrs, to
      ensures var s := View(t);
              && spare == |Copies(s, nkeys)| <= to.Length && spaceLeft == to.Length - spare
              && to[..] == Put(old(to[..]), 0, Copies(s, nkeys))
              && forall i :: 0 <= i < nkeys ==>
                 keyPtrs[i] == |Copies(s, i)| && valPtrs[i] == |Copies(s, i)| + |s.keys[i]| + 1
    {
      hide Copies, LiveTo, StrLen, CStr, View, Put, CopiedTo;
      ghost var s, was, n := View(t), to[..], to.Length;
      var item := 0;
      CopiesNone(s, was);
      while item < nkeys
        invariant 0 <= item <= nkeys
        invariant CopiedTo(s, item, was, to[..], spare, spaceLeft, n)
        invariant forall i :: 0 <= i < item ==>
                    keyPtrs[i] == |Copies(s, i)| && valPtrs[i] == |Copies(s, i)| + |s.keys[i]| + 1
        invariant forall i :: item <= i < nkeys ==> keyPtrs[i] == t.keyAt[i] && valPtrs[i] == t.valAt[i]
        invariant buffer[..] == t.mem
      {
        CopyEntry(item, to, t, was);
        item := item + 1;
      }
      CopiedToIs(s, nkeys, was, to[..], spare, spaceLeft, n);
    }

    /** One entry's key and value. */
    method CopyEntry(item: nat, to: array<char>, ghost t: Tab, ghost was: string)
      requires Shape() && buffer != null && Shaped(t) && t.mem == buffer[..] && to != buffer
          && Live(View(t)) <= to.Length
      requires item < nkeys == |t.keyAt| && keyPtrs[item] == t.keyAt[item] && valPtrs[item] == t.valAt[item]
      requires CopiedTo(View(t), item, was, to[..], spare, spaceLeft, to.Length)
      modifies this`spare, this`spaceLeft, keyPtrs, valPtrs, to
      ensures CopiedTo(View(t), item + 1, was, to[..], spare, spaceLeft, to.Length)
      ensures keyPtrs[..] == old(keyPtrs[..])[item := |Copies(View(t), item)|]
      ensures valPtrs[..] == old(valPtrs[..])[item := |Copies(View(t), item)| + |View(t).keys[item]| + 1]
    {
      hide StrLen, CStr, LiveTo, View, Copies, Put;
      CopiesNext(t, item, was);
      var length := Strcpy(buffer, keyPtrs[item], to, spare);
      keyPtrs[item] := spare;
      spare := spare + length;
      spaceLeft := spaceLeft - length;
      length := Strcpy(buffer, valPtrs[item], to, spare);
      valPtrs[item] := spare;
      spare := spare + length;
      spaceLeft := spaceLeft - length;
    }

    /** Room for so many characters, whether the buffer is new or not. */
    method MakeRoom(need: nat, size: nat, ghost t: Tab, ghost first: Garbage) returns (ghost fill: Garbage)
      requires Valid() && buffer != null && Shaped(t) && CanHold(t, need)
      requires Memory() == if t.mem == "" then Initial(t, size, first) else t
      modifies this`buffer, this`spare, this`spaceLeft, keyPtrs, valPtrs
      ensures Valid() && buffer != null && Memory() == Ready(t, size, need, fill) && spaceLeft >= need
      ensures nkeys == |t.keyAt| && (buffer == old(buffer) || fresh(buffer))
    {
      hide StrLen, CStr, LiveTo, View, Grown, Ready, Initial, Shaped;
      ReadyIs(t, size, need, first, first);
      fill := first;
      if spaceLeft < need {
        fill := Realloc(need);
        ReadyIs(t, size, need, first, fill);
      }
    }

    /** The text at a place. */
    method ReadText(at: nat) returns (s: string)
      requires buffer != null && at <= buffer.Length
      ensures s == CStr(buffer[..], at)
    {
      var n := 0;
      while at + n < buffer.Length && buffer[at + n] != NUL
        invariant at + n <= buffer.Length && forall k :: at <= k < at + n ==> buffer[k] != NUL
      {
        n := n + 1;
      }
      StrLenIs(buffer[..], at, n);
      s := buffer[at..at + n];
    }

    /** strncmp and strlen: is that the text at a place? */
    method TextIs(at: nat, wanted: string) returns (same: bool)
      requires buffer != null && at <= buffer.Length && NUL !in wanted
      ensures same <==> CStr(buffer[..], at) == wanted
    {
      var n := 0;
      while n < |wanted| && at + n < buffer.Length && buffer[at + n] == wanted[n]
        invariant n <= |wanted| && at + n <= buffer.Length && forall k :: 0 <= k < n ==> buffer[at + k] == wanted[k]
      {
        n := n + 1;
      }
      same := n == |wanted| && (at + n == buffer.Length || buffer[at + n] == NUL);
      SameRun(buffer[..], at, wanted, n);
    }

    /** strchr. */
    method FindChar(at: nat, c: char) returns (n: int)
      requires buffer != null && at <= buffer.Length
      ensures n == Find(CStr(buffer[..], at), c)
    {
      n := 0;
      while at + n < buffer.Length && buffer[at + n] != NUL && buffer[at + n] != c
        invariant 0 <= n && at + n <= buffer.Length
        invariant forall k :: at <= k < at + n ==> buffer[k] != NUL && buffer[k] != c
      {
        n := n + 1;
      }
      FindRun(buffer[..], at, c, n);
      if at + n == buffer.Length || buffer[at + n] == NUL {
        n := -1;
      }
    }

    /** snprintf with "%s": as much as there is room for, and a final 0. */
    method Print(at: nat, room: nat, text: string)
      requires buffer != null && (room > 0 ==> at + |Cut(text, room)| < buffer.Length)
      modifies buffer
      ensures buffer[..] == if room == 0 then old(buffer[..]) else Put(old(buffer[..]), at, Cut(text, room) + [NUL])
    {
      if room == 0 {
        return;
      }
      ghost var was := buffer[..];
      var i := 0;
      while i < |text| && i < room - 1
        invariant 0 <= i <= |Cut(text, room)|
        invariant forall k :: at <= k < at + i ==> buffer[k] == text[k - at]
        invariant forall k :: 0 <= k < buffer.Length && !(at <= k < at + i) ==> buffer[k] == was[k]
      {
        buffer[at + i] := text[i];
        i := i + 1;
      }
      buffer[at + i] := NUL;
      PutIs(was, buffer[..], at, Cut(text, room) + [NUL]);
    }

    // ----- Looking up

    /** kvpFindKey. */
    method FindIndex(key: string) returns (candidate: int)
      requires Valid() && NUL !in key
      ensures candidate == FindKey(View(Memory()), key)
    {
      hide StrLen, CStr;
      var wanted := Strip(key);
      StripNone(key, NUL);
      candidate := -1;
      var keynum := 0;
      ghost var keys := View(Memory()).keys;
      while keynum < nkeys
        invariant 0 <= keynum <= nkeys
        invariant candidate == LastIndex(keys[..keynum], wanted)
      {
        assert keys[..keynum + 1][..keynum] == keys[..keynum];
        var same := TextIs(keyPtrs[keynum], wanted);
        assert keys[keynum] == CStr(buffer[..], keyPtrs[keynum]);
        if same {
          candidate := keynum;
        }
        keynum := keynum + 1;
      }
      assert keys[..keynum] == keys;
    }

    /** kvpGetIntArray. */
    method GetIntArray(key: string, room: nat) returns (values: seq<int>, entries: nat)
      requires Valid() && NUL !in key
      modifies this`lastError
      ensures Memory() == old(Memory()) && (lastError, values, entries) == GetInts(View(Memory()), key, room)
    {
      hide Strtol, S32, FindKey, Live, StrLen, CStr;
      values, entries := [], room;
      var index := FindIndex(key);
      if index < 0 {
        lastError := KVP_E_NOTFOUND;
        return;
      }
      if valTypes[index] != KT_INT {
        lastError := KVP_E_BADVALUE;
        return;
      }
      lastError := KVP_E_OK;
      var valString := ReadText(valPtrs[index]);
      assert valString == View(Memory()).values[index];
      if 0 <= nelements[index] <= room {
        entries := nelements[index];
      } else if nelements[index] > room {
        lastError := KVP_E_TRUNCATE;
      }
      ghost var all := ReadInts(valString, entries);
      assert [] + all.0 == all.0;
      var element := 0;
      while element < entries
        invariant 0 <= element <= entries
        invariant lastError == if nelements[index] > room then KVP_E_TRUNCATE else KVP_E_OK
        invariant all == (values + ReadInts(valString, entries - element).0, ReadInts(valString, entries - element).1)
      {
        var (v, used) := Strtol(valString, 0);
        if used == 0 {
          values := values + [0];
          lastError := KVP_E_BADVALUE;
          return;
        }
        ReadNext(values, S32(v), valString, entries - element);
        values := values + [S32(v)];
        valString := if used + 1 <= |valString| then valString[used + 1..] else "";
        element := element + 1;
      }
      assert values + [] == values;
    }

    // ----- Setting and updating

    /** snprintf of each number, commas between them. */
    method PrintList(at: nat, ts: seq<string>, width: nat) returns (nchars: nat)
      requires buffer != null && at + |ts| * width <= buffer.Length && forall i :: 0 <= i < |ts| ==> |ts[i]| < width
      modifies buffer
      ensures nchars == |Joined(ts)| && buffer[..] == Written(old(buffer[..]), at, Numbers(ts, width))
    {
      hide Joined, Put, Written, ListDone;
      nchars := 0;
      var element := 0;
      ghost var was := buffer[..];
      ListNone(ts, width, at, was);
      while element < |ts|
        invariant 0 <= element <= |ts| && ListDone(ts, width, element, nchars, at, was, buffer[..])
      {
        nchars := PrintElement(at, ts, width, element, nchars, was);
        element := element + 1;
      }
      ListAll(ts, width, nchars, at, was, buffer[..]);
    }

    /** A comma, but before the first, and a number. */
    method PrintElement(at: nat, ts: seq<string>, width: nat, element: nat, written: nat, ghost was: string)
      returns (nchars: nat)
      requires buffer != null && at + |ts| * width <= buffer.Length && forall i :: 0 <= i < |ts| ==> |ts[i]| < width
      requires element < |ts| && |was| == buffer.Length && ListDone(ts, width, element, written, at, was, buffer[..])
      modifies buffer
      ensures ListDone(ts, width, element + 1, nchars, at, was, buffer[..])
      ensures buffer.Length - (at + nchars) >= 1
    {
      hide Joined, Put;
      ListStep(ts, width, element);
      ghost var before := buffer[..];
      ghost var front := Joined(ts[..element]);
      nchars := written;
      if element > 0 {
        buffer[at + nchars] := ',';
        nchars := nchars + 1;
      }
      assert buffer[..] == if element > 0 then before[at + |front| := ','] else before;
      Print(at + nchars, buffer.Length - (at + nchars), ts[element]);
      PutBehind(was, before, at, front, element > 0, ts[element]);
      nchars := nchars + |ts[element]|;
    }

    /** The value at `at`. */
    method PrintValue(at: nat, v: NewValue) returns (nchars: nat)
      requires buffer != null && Proper(v) && at + Needed(v) <= buffer.Length
      modifies buffer
      ensures nchars == |Full(v)| && buffer[..] == Written(old(buffer[..]), at, v)
    {
      match v {
        case Numbers(ts, width) =>
          nchars := PrintList(at, ts, width);
        case Characters(text) =>
          Print(at, buffer.Length - at, text);
          nchars := |text|;
      }
    }

    /** kvpSet, with what its callers kvpSetIntArray, kvpSetFloatArray and kvpSetString hand it. */
    method Set(key: string, v: NewValue, kind: KeyType) returns (code: KvpErrorCode, ghost fill: Garbage)
      requires Valid() && NUL !in key && Proper(v) && OfKind(v, kind) && CanHold(Memory(), Required(key, v))
      modifies this, buffer, keyPtrs, valPtrs, valTypes, nelements
      ensures Valid() && lastError == code && (code, Memory()) == SetIn(old(Memory()), key, v, kind, fill)
    {
      hide StrLen, CStr, LiveTo, Joined, FindKey, BadKey, Put, Written, SetIn, View, Ready, Initial, Shaped, Full,
           Proper, OfKind, Required, Needed, CanHold, SetAt, Refusal;
      ghost var t := Memory();
      code, fill := Check(key, kind);
      lastError := code;
      SetRefused(t, key, v, kind, fill);
      if code != KVP_E_OK {
        return;
      }
      code, fill := MakeRoomAndStore(key, v, kind, t, fill);
      lastError := code;
    }

    /** ... once nothing speaks against it. */
    method MakeRoomAndStore(key: string, v: NewValue, kind: KeyType, ghost t: Tab, ghost first: Garbage)
      returns (code: KvpErrorCode, ghost fill: Garbage)
      requires Valid() && buffer != null && NUL !in key && Proper(v) && OfKind(v, kind)
      requires Shaped(t) && CanHold(t, Required(key, v)) && Refusal(View(t), key, kind) == KVP_E_OK
      requires Memory() == if t.mem == "" then Initial(t, 0, first) else t
      modifies this`nkeys, this`buffer, this`spare, this`spaceLeft, buffer, keyPtrs, valPtrs, valTypes, nelements
      ensures Valid() && (code, Memory()) == SetIn(t, key, v, kind, fill)
    {
      hide StrLen, CStr, LiveTo, Joined, FindKey, BadKey, Put, Written, SetIn, View, Ready, Initial, Shaped, Full,
           Proper, OfKind, Required, Needed, CanHold, SetAt, Refusal;
      SetRefused(t, key, v, kind, first);
      SetAllowed(t, key, v, kind, first);
      fill := MakeRoom(Required(key, v), 0, t, first);
      SetAllowed(t, key, v, kind, fill);
      code := Store(key, v, kind, Memory());
    }

    /** ... what is checked before anything is written. */
    method Check(key: string, kind: KeyType) returns (code: KvpErrorCode, ghost fill: Garbage)
      requires Valid() && NUL !in key
      modifies this`buffer, this`spare, this`spaceLeft
      ensures Valid() && buffer != null && (buffer == old(buffer) || fresh(buffer))
      ensures Memory() == if old(Memory()).mem == "" then Initial(old(Memory()), 0, fill) else old(Memory())
      ensures code == Refusal(View(Memory()), key, kind) && (code == KVP_E_OK ==> nkeys < MAXKEYS)
    {
      hide StrLen, CStr, FindKey, View, Initial, Shaped;
      fill := Held("");
      if buffer == null {
        NoBuffer(Memory());
        fill := Init(0);
      }
      var entry := FindIndex(key);
      code := if entry >= 0 then KVP_E_DUPLICATE
              else if nkeys >= MAXKEYS then KVP_E_TOOMANY
              else if kind == KT_UINT || kind == KT_INVALID then KVP_E_BADTYPE
              else KVP_E_OK;
    }

    /** ... once there is room: the key, unless it is refused, and the entry. */
    method Store(key: string, v: NewValue, kind: KeyType, ghost t: Tab) returns (code: KvpErrorCode)
      requires Valid() && buffer != null && nkeys < MAXKEYS && NUL !in key && Proper(v) && t == Memory()
      requires |key| + 1 + Needed(v) <= spaceLeft && |Full(v)| <= Needed(v)
      modifies this`nkeys, this`spare, this`spaceLeft, buffer, keyPtrs, valPtrs, valTypes, nelements
      ensures Valid()
      ensures (code, Memory())
           == if BadKey(key) then (KVP_E_BADKEY, t.(mem := Put(t.mem, t.spare, key + [NUL])))
              else (KVP_E_OK, SetAt(t, key, v, kind))
    {
      hide StrLen, CStr, LiveTo, Joined, Put, Written, View, Full, Proper, Needed, BadKey, SetAt;
      keyPtrs[nkeys] := spare;
      Print(spare, spaceLeft, key);
      assert Memory() == t.(mem := Put(t.mem, t.spare, key + [NUL]));
      if BadKey(key) {
        return KVP_E_BADKEY;
      }
      AddEntry(key, v, kind, t);
      code := KVP_E_OK;
    }

    /** ... once the key is written: the value behind it, and the new entry's fields. */
    method AddEntry(key: string, v: NewValue, kind: KeyType, ghost t: Tab)
      requires Valid() && buffer != null && nkeys < MAXKEYS && keyPtrs[nkeys] == spare && Proper(v) && Shaped(t)
      requires |key| + 1 + Needed(v) <= spaceLeft && |Full(v)| <= Needed(v)
      requires |t.mem| == buffer.Length && t.spare == spare && Memory() == t.(mem := Put(t.mem, t.spare, key + [NUL]))
      modifies this`nkeys, this`spare, this`spaceLeft, buffer, valPtrs, valTypes, nelements
      ensures Valid() && Memory() == SetAt(t, key, v, kind)
    {
      hide StrLen, CStr, LiveTo, Joined, Put, Written, View;
      var at := spare + |key| + 1;
      valPtrs[nkeys] := at;
      var nchars := PrintValue(at, v);
      valTypes[nkeys] := kind;
      nelements[nkeys] := Count(v);
      nkeys := nkeys + 1;
      spaceLeft := spaceLeft - (|key| + 1 + nchars + 1);
      spare := at + nchars + 1;
      assert Memory() == SetAt(t, key, v, kind);
    }

    /** kvpUpdate; the space of the value the entry had is not given back. */
    method Update(key: string, v: NewValue, kind: KeyType) returns (code: KvpErrorCode, ghost fill: Garbage)
      requires Valid() && NUL !in key && Proper(v) && OfKind(v, kind) && CanHold(Memory(), Needed(v))
      modifies this, buffer, keyPtrs, valPtrs, nelements
      ensures Valid() && lastError == code && (code, Memory()) == UpdateIn(old(Memory()), key, v, kind, fill)
    {
      hide StrLen, CStr, LiveTo, Joined, FindKey, Put, Written, UpdateIn, View, Ready, Shaped, Full, Proper, OfKind,
           Needed, CanHold, UpdateAt;
      ghost var t := Memory();
      fill := Held("");
      UpdateSteps(t, key, v, kind, fill);
      var entry := FindIndex(key);
      code := if entry < 0 then KVP_E_NOTFOUND
              else if valTypes[entry] != kind && !(valTypes[entry] == KT_INT && kind == KT_UINT) then KVP_E_BADVALUE
              else if kind == KT_INVALID then KVP_E_BADTYPE
              else KVP_E_OK;
      lastError := code;
      if code != KVP_E_OK {
        return;
      }
      fill := MakeRoom(Needed(v), 0, t, fill);
      UpdateSteps(t, key, v, kind, fill);
      ChangeEntry(entry, v);
    }

    /** The new value at the front of the free space. */
    method ChangeEntry(entry: nat, v: NewValue)
      requires Valid() && buffer != null && entry < nkeys && Proper(v) && Needed(v) <= spaceLeft
          && |Full(v)| <= Needed(v)
      modifies this`spare, this`spaceLeft, buffer, valPtrs, nelements
      ensures Valid() && Memory() == UpdateAt(old(Memory()), entry, v)
    {
      hide StrLen, CStr, LiveTo, Joined, Put, Written, View;
      ghost var t := Memory();
      valPtrs[entry] := spare;
      var nchars := PrintValue(spare, v);
      nelements[entry] := Count(v);
      spare := spare + nchars + 1;
      spaceLeft := spaceLeft - (nchars + 1);
      assert Memory() == UpdateAt(t, entry, v);
    }

    // ----- What is called from outside

    /** kvpSetString: in settled tables, exactly when just enough is free is the last character lost. */
    method SetString(key: string, value: string) returns (code: KvpErrorCode, ghost fill: Garbage)
      requires Valid() && NUL !in key && NUL !in value && CanHold(Memory(), Required(key, Characters(value)))
      modifies this, buffer, keyPtrs, valPtrs, valTypes, nelements
      ensures Valid() && lastError == code
      ensures (code, Memory()) == SetIn(old(Memory()), key, Characters(value), KT_STRING, fill)
      ensures Settled(old(Memory())) ==>
                SetStringViews(old(Memory()), key, value, code, Memory())
    {
      hide SetIn, CanHold, Settled;
      ghost var t := Memory();
      code, fill := Set(key, Characters(value), KT_STRING);
      if Settled(t) {
        StringSet(t, key, value, fill);
      }
    }

    /** kvpUpdateString. */
    method UpdateString(key: string, value: string) returns (code: KvpErrorCode, ghost fill: Garbage)
      requires Valid() && NUL !in key && NUL !in value && CanHold(Memory(), Needed(Characters(value)))
      modifies this, buffer, keyPtrs, valPtrs, nelements
      ensures Valid() && lastError == code
      ensures (code, Memory()) == UpdateIn(old(Memory()), key, Characters(value), KT_STRING, fill)
      ensures Settled(old(Memory())) ==>
                UpdateStringViews(old(Memory()), key, value, code, Memory())
    {
      hide UpdateIn, CanHold, Settled;
      ghost var t := Memory();
      code, fill := Update(key, Characters(value), KT_STRING);
      if Settled(t) {
        StringUpdated(t, key, value, fill);
      }
    }

    /** kvpSetIntArray, an empty array included. */
    method SetIntArray(key: string, values: seq<int>) returns (code: KvpErrorCode, ghost fill: Garbage)
      requires Valid() && NUL !in key && forall i :: 0 <= i < |values| ==> Int32(values[i])
      requires CanHold(Memory(), |key| + 1 + |values| * MAX_INT_LENGTH)
      modifies this, buffer, keyPtrs, valPtrs, valTypes, nelements
      ensures Valid() && lastError == code && Proper(IntTexts(values))
      ensures (code, Memory()) == SetIn(old(Memory()), key, IntTexts(values), KT_INT, fill)
      ensures Settled(old(Memory())) && values != [] ==>
                && Settled(Memory())
                && (code, View(Memory()))
                   == SetText(View(old(Memory())), key, Joined(PrintedInts(values)), |values|, KT_INT)
    {
      hide SetIn, CanHold, Settled, SetText, PrintedInts, Joined;
      ghost var t := Memory();
      IntTextsProper(values);
      code, fill := Set(key, IntTexts(values), KT_INT);
      if Settled(t) && values != [] {
        IntsSet(t, key, values, fill);
      }
    }

    /** kvpUpdateUnsignedIntArray. */
    method UpdateUnsignedIntArray(key: string, values: seq<nat>) returns (code: KvpErrorCode, ghost fill: Garbage)
      requires Valid() && NUL !in key && forall i :: 0 <= i < |values| ==> values[i] < 0x1_0000_0000
      requires CanHold(Memory(), |values| * MAX_INT_LENGTH)
      modifies this, buffer, keyPtrs, valPtrs, nelements
      ensures Valid() && lastError == code && Proper(HexTexts(values))
      ensures (code, Memory()) == UpdateIn(old(Memory()), key, HexTexts(values), KT_UINT, fill)
      ensures Settled(old(Memory())) && values != [] ==>
                && Settled(Memory())
                && (code, View(Memory()))
                   == UpdateText(View(old(Memory())), key, Joined(PrintedHexes(values)), |values|, KT_UINT)
    {
      hide UpdateIn, CanHold, Settled, UpdateText, PrintedHexes, Joined;
      ghost var t := Memory();
      HexTextsProper(values);
      code, fill := Update(key, HexTexts(values), KT_UINT);
      if Settled(t) && values != [] {
        HexesUpdated(t, key, values, fill);
      }
    }

    // ----- Parsing

    /** stripSpaces: where the text at p begins without spaces, a 0 behind its last other character. */
    method StripSpaces(p: nat) returns (start: nat)
      requires buffer != null && p < buffer.Length && p + StrLen(buffer[..], p) + 1 < buffer.Length
      modifies buffer
      ensures (start, buffer[..]) == StripAt(old(buffer[..]), p)
    {
      hide StrLen, CStr, TrimLeft, TrimRight;
      start := SkipSpaces(p);
      ghost var mem, s := buffer[..], CStr(buffer[..], p);
      CStrTail(mem, p, start - p);
      TrimLeftIs(s);
      ghost var left := TrimLeft(s);
      assert left == CStr(mem, start);
      TrimNothing();
      FirstPrints(s);
      var tPtr, endPtr := start, start;
      while buffer[tPtr] != NUL
        invariant start <= tPtr <= p + |s| && start <= endPtr && buffer[..] == mem
        invariant tPtr == start ==> endPtr == start
        invariant tPtr > start ==> endPtr < tPtr && |TrimRight(left[..tPtr - start])| == endPtr + 1 - start
        decreases p + |s| - tPtr
      {
        CharAt(mem, start, tPtr - start);
        TrimRightStep(left, tPtr - start);
        if !Space(buffer[tPtr]) {
          endPtr := tPtr;
        }
        tPtr := tPtr + 1;
      }
      CharAt(mem, start, tPtr - start);
      assert left[..tPtr - start] == left;
      buffer[endPtr + 1] := NUL;
    }

    /** Leading spaces are skipped. */
    method SkipSpaces(p: nat) returns (start: nat)
      requires buffer != null && p < buffer.Length && p + StrLen(buffer[..], p) < buffer.Length
      ensures start == p + (|CStr(buffer[..], p)| - |TrimLeft(CStr(buffer[..], p))|)
    {
      hide StrLen, CStr, TrimLeft;
      ghost var mem, s := buffer[..], CStr(buffer[..], p);
      CStrTail(mem, p, 0);
      start := p;
      while Space(buffer[start])
        invariant p <= start <= p + |s| < buffer.Length && TrimLeft(s) == TrimLeft(s[start - p..])
        decreases p + |s| - start
      {
        CharAt(mem, p, start - p);
        TrimLeftStep(s[start - p..]);
        assert s[start - p..][1..] == s[start - p + 1..];
        start := start + 1;
      }
      CharAt(mem, p, start - p);
      TrimLeftStep(s[start - p..]);
    }

    /** One turn of the parser's loop, in place. */
    method TakeOne(p: nat) returns (st: Status)
      requires Valid() && buffer != null && p <= buffer.Length && p + StrLen(buffer[..], p) < buffer.Length
      modifies this`nkeys, buffer, keyPtrs, valPtrs, valTypes, nelements
      ensures Shape() && Comes(TurnAt(old(Memory()), p), st, Memory())
    {
      hide StrLen, CStr, Strip, Find, Comment, TypeOf, StripAt, SupersededAt, ValueAt, View, TurnAt, Superseded,
           Shaped, Comes;
      ghost var t := Memory();
      TurnUnfold(t, p);
      Outright(t);
      var hash := FindChar(p, '#');
      if hash < 0 {
        return Stopped;
      }
      if nkeys >= MAXKEYS {
        return Failed(KVP_E_TOOMANY);
      }
      HashInside(t.mem, p, hash);
      var ended := buffer[p + hash + 1] == NUL;
      var start := CutKey(p, hash);
      Outright(Memory());
      var key := ReadText(start);
      if Comment(key) {
        return Stopped;
      }
      if ended {
        return Wild;
      }
      st := TakePairAt(start, key, p + hash + 2);
    }

    /** The key is known: its place, the older entry, the type letter in front of q. */
    method TakePairAt(start: nat, key: string, q: nat) returns (st: Status)
      requires Valid() && buffer != null && nkeys < MAXKEYS && start <= buffer.Length && 0 < q <= buffer.Length
          && NUL !in key
      modifies this`nkeys, buffer, keyPtrs, valPtrs, valTypes, nelements
      ensures Shape()
      ensures var t := SupersededAt(old(Memory()), key);
              Comes(ValueAt(t, start, TypeOf(t.mem[q - 1], t.types[|t.keyAt|]), q), st, Memory())
    {
      hide StrLen, CStr, TypeOf, SupersededAt, ValueAt, View, Superseded, Shaped, Comes;
      ghost var t := Memory();
      keyPtrs[nkeys] := start;
      assert Memory() == t;
      Supersede(key);
      st := TakeRest(start, TypeOf(buffer[q - 1], valTypes[nkeys]), q);
    }

    /** A 0 in place of the '#', and the key in front of it stripped. */
    method CutKey(p: nat, hash: nat) returns (start: nat)
      requires Valid() && buffer != null && p <= buffer.Length && p + StrLen(buffer[..], p) < buffer.Length
      requires hash < StrLen(buffer[..], p)
      modifies buffer
      ensures Valid() && p + hash < |old(Memory()).mem| && start <= buffer.Length
      ensures p + StrLen(old(Memory()).mem[p + hash := NUL], p) < |old(Memory()).mem|
      ensures var cut := StripAt(old(Memory()).mem[p + hash := NUL], p);
              start == cut.0 && Memory() == old(Memory()).(mem := cut.1)
    {
      hide StrLen, CStr, StripAt, View;
      ghost var t := Memory();
      HashInside(t.mem, p, hash);
      buffer[p + hash] := NUL;
      assert buffer[..] == t.mem[p + hash := NUL];
      start := StripSpaces(p);
    }

    method Supersede(key: string)
      requires Valid() && NUL !in key
      modifies valTypes
      ensures Valid() && Memory() == SupersededAt(old(Memory()), key)
    {
      hide StrLen, CStr, FindKey, View;
      ghost var t := Memory();
      var oldKeyNumber := FindIndex(key);
      if oldKeyNumber >= 0 {
        valTypes[oldKeyNumber] := KT_INVALID;
      }
      assert Memory() == SupersededAt(t, key);
    }

    /** The element count in front of the value. */
    method TakeRest(start: nat, kind: KeyType, q: nat) returns (st: Status)
      requires Valid() && buffer != null && nkeys < MAXKEYS && start <= buffer.Length && q <= buffer.Length
      requires keyPtrs[nkeys] == start
      modifies this`nkeys, buffer, valPtrs, valTypes, nelements
      ensures Shape() && Comes(ValueAt(old(Memory()), start, kind, q), st, Memory())
    {
      hide StrLen, CStr, CountField, StoreAt, View;
      ghost var t := Memory();
      var rest := ReadText(q);
      var (given, behind) := CountField(rest);
      nelements[nkeys] := given;
      if behind == "" || behind[0] != '=' {
        valTypes[nkeys] := kind;
        assert Memory() == t.(types := t.types[|t.keyAt| := kind]);
        return Failed(KVP_E_BADINPUT);
      }
      assert Memory() == t;
      st := TakeText(start, kind, given, q + (|rest| - |behind|) + 1);
    }

    /** The value up to its semicolon. */
    method TakeText(start: nat, kind: KeyType, given: int, v: nat) returns (st: Status)
      requires Valid() && buffer != null && nkeys < MAXKEYS && start <= buffer.Length && v <= buffer.Length
      requires keyPtrs[nkeys] == start && nelements[nkeys] == given
      modifies this`nkeys, buffer, valPtrs, valTypes, nelements
      ensures Shape() && Comes(StoreAt(old(Memory()), start, kind, given, v), st, Memory())
    {
      hide StrLen, CStr, Validate, Find, View, Shaped, StoreAt, Added, Comes;
      ghost var t := Memory();
      StoreUnfold(t, start, kind, given, v);
      var e := CutValue(kind, v);
      ghost var t1 := Memory();
      Outright(t1);
      var value := ReadText(v);
      var count := ValidateValue(value, kind);
      if count < 0 {
        return Failed(KVP_E_ILLNUMBER);
      }
      if nelements[nkeys] == 0 {
        nelements[nkeys] := count;
      } else if nelements[nkeys] != count {
        return Failed(KVP_E_WRONGCOUNT);
      }
      Include(kind);
      Outright(Memory());
      st := if e < 0 then Ended else Found(v + e + 1);
    }

    /** nkeys++. */
    method Include(kind: KeyType)
      requires Valid() && buffer != null && nkeys < MAXKEYS && valTypes[nkeys] == kind
      modifies this`nkeys
      ensures Shape()
      ensures Memory() == Added(old(Memory()), old(keyPtrs[nkeys]), old(valPtrs[nkeys]), old(nelements[nkeys]), kind)
    {
      hide StrLen, CStr, View;
      ghost var t := Memory();
      nkeys := nkeys + 1;
      assert Memory() == Added(t, keyPtrs[nkeys - 1], valPtrs[nkeys - 1], nelements[nkeys - 1], kind);
    }

    /** The new entry's type and value, a 0 in place of the semicolon. */
    method CutValue(kind: KeyType, v: nat) returns (e: int)
      requires Valid() && buffer != null && nkeys < MAXKEYS && v <= buffer.Length
      modifies buffer, valPtrs, valTypes
      ensures Valid() && valPtrs[nkeys] == v && e == Find(CStr(old(buffer[..]), v), ';') < buffer.Length - v
      ensures Memory() == old(Memory()).(mem := if e < 0 then old(buffer[..]) else old(buffer[..])[v + e := NUL],
                                         types := old(Memory()).types[nkeys := kind])
    {
      hide StrLen, CStr, Find, View;
      ghost var t := Memory();
      valTypes[nkeys] := kind;
      e := FindChar(v, ';');
      if e >= 0 {
        buffer[v + e] := NUL;
      }
      valPtrs[nkeys] := v;
      assert buffer[..] == if e < 0 then t.mem else t.mem[v + e := NUL];
    }

    /** kvpParse: the number of keys in the table, or -1; -1 also where the source reads on behind the record. */
    method Parse(record: string) returns (n: int, ghost fill: Garbage)
      requires Valid() && NUL !in record && CanHold(Memory(), |record| + 1)
      modifies this, buffer, keyPtrs, valPtrs, valTypes, nelements
      ensures match ParseRecordIn(old(Memory()), record, fill)
              case MParsed(t, _) => Valid() && Memory() == t && n == nkeys && lastError == KVP_E_OK
              case MRefused(code, t) => Valid() && Memory() == t && n == -1 && lastError == code
              case MLost => true
    {
      hide StrLen, CStr, View, LiveTo, Put, TurnAt, ParseAt, TrimLeft, Reaches, Ready, Initial, Shaped, CanHold, Loaded,
           ParseRecordIn;
      ghost var t := Memory();
      var reclen := |record| + 1;
      fill := LoadRecord(record);
      ParseSteps(t, record, fill);
      var p := spare + (|record| - |TrimLeft(record)|);
      var st := ParseLoop(p, spare + |record|);
      if st.Failed? || st.Wild? {
        if st.Failed? {
          lastError := st.code;
        }
        return -1, fill;
      }
      if st.Ended? {
        reclen := reclen + 1;
      }
      n := nkeys;
      Accept(reclen);
    }

    /** The record counts as used up. */
    method Accept(reclen: nat)
      requires Valid() && spare + reclen <= |Memory().mem| + 1 && Memory().mem != ""
      modifies this`spare, this`spaceLeft, this`lastError
      ensures Valid() && Memory() == old(Memory()).(spare := old(spare) + reclen) && lastError == KVP_E_OK
    {
      hide StrLen, CStr, View;
      spare := spare + reclen;
      spaceLeft := spaceLeft - reclen;
      lastError := KVP_E_OK;
    }

    /** The record's copy at the front of the free space. */
    method LoadRecord(record: string) returns (ghost fill: Garbage)
      requires Valid() && NUL !in record && CanHold(Memory(), |record| + 1)
      modifies this`buffer, this`spare, this`spaceLeft, buffer, keyPtrs, valPtrs
      ensures Valid() && buffer != null && (buffer == old(buffer) || fresh(buffer))
      ensures var t1 := Ready(old(Memory()), |record| + 1, |record| + 1, fill);
              && Shaped(t1) && |record| + 1 <= SpaceLeft(t1) && spare == t1.spare && Memory() == Loaded(t1, record)
              && Reaches(buffer[..], RecordStart(t1, record), spare + |record|)
    {
      hide StrLen, CStr, View, LiveTo, Put, TrimLeft, Reaches, Ready, Initial, Shaped, CanHold;
      ghost var t := Memory();
      var reclen := |record| + 1;
      fill := Held("");
      if buffer == null {
        NoBuffer(t);
        fill := Init(reclen);
      }
      fill := MakeRoom(reclen, reclen, t, fill);
      ghost var t1 := Memory();
      Print(spare, reclen, record);
      assert Memory() == Loaded(t1, record);
      LoadedText(t1, record);
    }

    /** The loop over the pairs; z is where the record's final 0 stands. */
    method ParseLoop(start: nat, ghost z: nat) returns (st: Status)
      requires Valid() && buffer != null && Reaches(buffer[..], start, z)
      modifies this`nkeys, buffer, keyPtrs, valPtrs, valTypes, nelements
      ensures Shape() && !st.Found? && start + StrLen(old(Memory()).mem, start) < |old(Memory()).mem|
      ensures match ParseAt(old(Memory()), start)
              case MParsed(t, open) => st == (if open then Ended else Stopped) && Memory() == t
              case MRefused(code, t) => st == Failed(code) && Memory() == t
              case MLost => st == Wild
    {
      hide StrLen, CStr, View, TurnAt, Reaches, ParseAt, AddedFrom, Shaped;
      InBuffer(Memory().mem, start, z);
      ghost var outcome := ParseAt(Memory(), start);
      st := Found(start);
      while st.Found?
        invariant Shape() && buffer != null && buffer.Length == |old(Memory()).mem|
        invariant match st
                  case Found(p) =>
                    Valid() && Reaches(buffer[..], p, z) && p <= buffer.Length
                      && p + StrLen(buffer[..], p) < buffer.Length
                    && ParseAt(Memory(), p) == outcome
                  case Stopped => outcome == MParsed(Memory(), false)
                  case Ended => outcome == MParsed(Memory(), true)
                  case Failed(code) => outcome == MRefused(code, Memory())
                  case Wild => outcome == MLost
        decreases if st.Found? then buffer.Length + 1 - st.at else 0
      {
        ParseStep(Memory(), st.at, z);
        st := TakeOne(st.at);
      }
    }

    /**
     * kvpFormat: the characters written, or -1.  It refuses a buffer smaller
     * than the text; one of just the text's size it accepts, though the last
     * character then gives way to the final 0.
     */
    method Format(out: array<char>, bufferSize: nat) returns (ret: int)
      requires Valid() && bufferSize <= out.Length && out != buffer
      modifies out
      ensures ret == if |FormatFrom(View(Memory()), 0)| > bufferSize then -1 else |FormatFrom(View(Memory()), 0)|
      ensures ret > 0 ==> ShownIn(out[..], FormatFrom(View(Memory()), 0), bufferSize)
    {
      hide PairText, StrLen, CStr, FormatFrom, EntryText, ShownIn, View;
      ghost var t := Memory();
      ghost var s := View(t);
      ghost var done := "";
      var offset := 0;
      var entry := 0;
      assert "" + FormatFrom(s, 0) == FormatFrom(s, 0);
      while entry < nkeys
        invariant 0 <= entry <= nkeys && Memory() == t
        invariant offset == |done| <= bufferSize && done + FormatFrom(s, entry) == FormatFrom(s, 0)
        invariant offset > 0 ==> ShownIn(out[..], done, bufferSize)
      {
        FormatStep(s, entry, done);
        EntryOf(t, entry);
        if valTypes[entry] != KT_INVALID {
          var key := ReadText(keyPtrs[entry]);
          var value := ReadText(valPtrs[entry]);
          var piece := PairText(key, valTypes[entry], nelements[entry], value)
              + (if entry < nkeys - 1 then "\n" else "");
          Snprintf(out, offset, bufferSize - offset, piece, done);
          if |piece| > bufferSize - offset {
            return -1;
          }
          done := done + piece;
          offset := offset + |piece|;
        }
        entry := entry + 1;
      }
      FormatEnd(s, done);
      ret := offset;
    }
  }

  method Strcpy(src: array<char>, from: nat, dst: array<char>, to: nat) returns (length: nat)
    requires src != dst && from <= src.Length && to + StrLen(src[..], from) + 1 <= dst.Length
    modifies dst
    ensures length == StrLen(src[..], from) + 1
    ensures dst[..] == Put(old(dst[..]), to, CStr(src[..], from) + [NUL])
  {
    ghost var mem, was := src[..], dst[..];
    var n := 0;
    while from + n < src.Length && src[from + n] != NUL
      invariant n <= StrLen(mem, from) && src[..] == mem
      invariant forall k :: to <= k < to + n ==> dst[k] == mem[k - to + from]
      invariant forall k :: 0 <= k < dst.Length && !(to <= k < to + n) ==> dst[k] == was[k]
    {
      assert n < StrLen(mem, from);
      dst[to + n] := src[from + n];
      n := n + 1;
    }
    assert n == StrLen(mem, from);
    dst[to + n] := NUL;
    length := n + 1;
    assert dst[..] == Put(was, to, CStr(mem, from) + [NUL]);
  }

  /** snprintf of `piece` at `offset`, behind what is there. */
  method Snprintf(buffer: array<char>, offset: nat, room: nat, piece: string, ghost done: string)
    requires offset == |done| && offset + room <= buffer.Length && piece != ""
    requires offset > 0 ==> ShownIn(buffer[..], done, offset + room)
    modifies buffer
    ensures |piece| <= room ==> ShownIn(buffer[..], done + piece, offset + room)
  {
    ghost var before := buffer[..];
    var n := if |piece| < room then |piece| else if room == 0 then 0 else room - 1;
    forall i | 0 <= i < n {
      buffer[offset + i] := piece[i];
    }
    if room > 0 {
      buffer[offset + n] := '\0';
    }
    assert |piece| <= room ==> buffer[..offset] == done;
  }
}
