/** Binary data packed into text, two hexadecimal digits a byte. */
module SwigHex {
  import opened CStrings
  import opened SwigModules

  type Byte = b: int | 0 <= b < 256

  // ----- What is packed and unpacked

  function Digit(d: int): Char
    requires 0 <= d < 16
  {
    if d < 10 then '0' + d as char else 'a' + (d - 10) as char
  }

  function Hex(bytes: seq<Byte>): (text: CString)
    ensures |text| == 2 * |bytes|
  {
    if bytes == [] then [] else [Digit(bytes[0] / 16), Digit(bytes[0] % 16)] + Hex(bytes[1..])
  }

  /** The value of a digit; upper case letters are no digits. */
  function Value(d: char): Option<int> {
    if '0' <= d <= '9' then Some(d as int - '0' as int)
    else if 'a' <= d <= 'f' then Some(d as int - 'a' as int + 10)
    else None
  }

  /** The bytes that `text` starts with, up to `sz` of them and up to the first pair that is not two digits. */
  function Decode(text: CString, sz: nat): (bytes: seq<Byte>)
    ensures |bytes| <= sz && 2 * |bytes| <= |text|
    decreases sz
  {
    if sz == 0 || |text| < 2 || Value(text[0]) == None || Value(text[1]) == None then []
    else [Value(text[0]).value * 16 + Value(text[1]).value] + Decode(text[2..], sz - 1)
  }

  /** The `sz` bytes at the start of `text` and the text behind them. */
  function Unpack(text: CString, sz: nat): Option<(seq<Byte>, CString)> {
    if |Decode(text, sz)| == sz then Some((Decode(text, sz), text[2 * sz..])) else None
  }

  lemma DigitsHaveValues(d: int)
    requires 0 <= d < 16
    ensures Value(Digit(d)) == Some(d)
  {
  }

  lemma ValuesHaveDigits(d: Char)
    requires Value(d) != None
    ensures 0 <= Value(d).value < 16 && Digit(Value(d).value) == d
  {
  }

  function Digits(b: Byte): CString {
    [Digit(b / 16), Digit(b % 16)]
  }

  lemma DecodeDigits(b: Byte, rest: CString, sz: nat)
    ensures Decode(Digits(b) + rest, sz + 1) == [b] + Decode(rest, sz)
  {
    DigitsHaveValues(b / 16);
    DigitsHaveValues(b % 16);
    assert (Digits(b) + rest)[2..] == rest;
  }

  lemma {:induction false} DecodeHex(bytes: seq<Byte>, name: CString)
    ensures Decode(Hex(bytes) + name, |bytes|) == bytes
  {
    if bytes == [] {
    } else {
      var rest := Hex(bytes[1..]) + name;
      assert Hex(bytes) + name == Digits(bytes[0]) + rest;
      DecodeDigits(bytes[0], rest, |bytes| - 1);
      DecodeHex(bytes[1..], name);
    }
  }

  /** The first byte in which the sequences differ is smaller in `a`. */
  ghost predicate Smaller(a: seq<Byte>, b: seq<Byte>)
    requires |a| == |b|
  {
    exists k :: 0 <= k < |a| && a[..k] == b[..k] && a[k] < b[k]
  }

  /** Texts are in the order of the bytes that they pack. */
  lemma {:induction false} HexKeepsOrder(a: seq<Byte>, b: seq<Byte>)
    requires |a| == |b|
    ensures Compare(Hex(a), Hex(b)) < 0 <==> Smaller(a, b)
  {
    if a == [] {
    } else {
      HexKeepsOrder(a[1..], b[1..]);
      FirstByte(a[0], b[0], Hex(a[1..]), Hex(b[1..]));
      SmallerFrom(a, b);
    }
  }

  lemma FirstByte(x: Byte, y: Byte, s: CString, t: CString)
    ensures var c := Compare([Digit(x / 16), Digit(x % 16)] + s, [Digit(y / 16), Digit(y % 16)] + t);
            c < 0 <==> x < y || (x == y && Compare(s, t) < 0)
  {
    var a, b := [Digit(x / 16), Digit(x % 16)] + s, [Digit(y / 16), Digit(y % 16)] + t;
    assert a[1..][1..] == s && b[1..][1..] == t;
    assert a[1..][0] == Digit(x % 16) && b[1..][0] == Digit(y % 16);
  }

  lemma SmallerFrom(a: seq<Byte>, b: seq<Byte>)
    requires |a| == |b| > 0
    ensures Smaller(a, b) <==> a[0] < b[0] || (a[0] == b[0] && Smaller(a[1..], b[1..]))
  {
    if a[0] < b[0] {
      assert a[..0] == b[..0];
    } else if a[0] == b[0] && Smaller(a[1..], b[1..]) {
      var k :| 0 <= k < |a[1..]| && a[1..][..k] == b[1..][..k] && a[1..][k] < b[1..][k];
      assert a[..k + 1] == [a[0]] + a[1..][..k] && b[..k + 1] == [b[0]] + b[1..][..k];
    }
    if Smaller(a, b) {
      var k :| 0 <= k < |a| && a[..k] == b[..k] && a[k] < b[k];
      if k > 0 {
        assert a[0] == a[..k][0] == b[..k][0] == b[0];
        assert a[1..][..k - 1] == a[..k][1..] && b[1..][..k - 1] == b[..k][1..];
      }
    }
  }

  /** An instance. */
  lemma TwoBytes()
    ensures Hex([0x0F, 0xAB]) == "0fab"
  {
    assert [0x0F, 0xAB][1..] == [0xAB] && [0xAB][1..] == [];
  }

  /** Unpacking packed bytes gives the bytes and the text that followed them. */
  lemma UnpackHex(bytes: seq<Byte>, name: CString)
    ensures Unpack(Hex(bytes) + name, |bytes|) == Some((bytes, name))
  {
    DecodeHex(bytes, name);
    assert (Hex(bytes) + name)[2 * |bytes|..] == name;
  }

  /** Packing unpacked bytes gives back the text. */
  lemma {:induction false} HexDecode(text: CString, sz: nat)
    ensures Hex(Decode(text, sz)) == text[..2 * |Decode(text, sz)|]
    decreases sz
  {
    if Decode(text, sz) == [] {
    } else {
      var b, rest := Decode(text, sz)[0], Decode(text[2..], sz - 1);
      ValuesHaveDigits(text[0]);
      ValuesHaveDigits(text[1]);
      assert Decode(text, sz) == [b] + rest && Digits(b) == [text[0], text[1]];
      HexDecode(text[2..], sz - 1);
      HexDigits(b, rest);
      TakeMore(text, 2 * |rest|);
    }
  }

  lemma TakeMore(text: CString, n: nat)
    requires n + 2 <= |text|
    ensures [text[0], text[1]] + text[2..][..n] == text[..n + 2]
  {
  }

  lemma HexDigits(b: Byte, rest: seq<Byte>)
    ensures Hex([b] + rest) == Digits(b) + Hex(rest)
  {
    assert ([b] + rest)[1..] == rest;
  }

  /** A text unpacks exactly when it starts with `2 * sz` digits, and then it is the packed bytes and the rest. */
  lemma HexUnpack(text: CString, sz: nat)
    ensures Unpack(text, sz) != None <==>
            |text| >= 2 * sz && forall k :: 0 <= k < 2 * sz ==> '0' <= text[k] <= '9' || 'a' <= text[k] <= 'f'
    ensures Unpack(text, sz) != None ==> Hex(Unpack(text, sz).value.0) + Unpack(text, sz).value.1 == text
  {
    HexDecode(text, sz);
    DecodeStops(text, sz);
  }

  lemma {:induction false} DecodeStops(text: CString, sz: nat)
    ensures |Decode(text, sz)| == sz <==> |text| >= 2 * sz && forall k :: 0 <= k < 2 * sz ==> Value(text[k]) != None
    decreases sz
  {
    if sz == 0 || |text| < 2 {
    } else {
      DecodeStops(text[2..], sz - 1);
      assert forall k :: 2 <= k < |text| ==> text[k] == text[2..][k - 2];
    }
  }

  /** Reading ends at the first pair that is not two digits. */
  lemma {:induction false} DecodeEndsAt(text: CString, sz: nat)
    ensures var n := |Decode(text, sz)|;
            n < sz ==> |text| < 2 * n + 2 || Value(text[2 * n]) == None || Value(text[2 * n + 1]) == None
    decreases sz
  {
    if Decode(text, sz) == [] {
    } else {
      DecodeEndsAt(text[2..], sz - 1);
    }
  }

  // ----- Packing and unpacking in buffers

  /** `SWIG_PackData`: writes the digits from `at` on and answers the place behind them. */
  method PackData(c: array<char>, at: nat, bytes: seq<Byte>) returns (end: nat)
    requires at + 2 * |bytes| <= c.Length
    modifies c
    ensures end == at + 2 * |bytes|
    ensures c[..] == old(c[..at]) + Hex(bytes) + old(c[end..])
  {
    end := at;
    var u := 0;
    ghost var hex := Hex(bytes);
    while u < |bytes|
      invariant 0 <= u <= |bytes| && end == at + 2 * u
      invariant forall j :: 0 <= j < c.Length ==> c[j] == if at <= j < end then hex[j - at] else old(c[j])
    {
      HexAt(bytes, u);
      c[end] := Digit(bytes[u] / 16);
      c[end + 1] := Digit(bytes[u] % 16);
      end := end + 2;
      u := u + 1;
    }
  }

  lemma {:induction false} HexAt(bytes: seq<Byte>, u: nat)
    requires u < |bytes|
    ensures Hex(bytes)[2 * u] == Digit(bytes[u] / 16) && Hex(bytes)[2 * u + 1] == Digit(bytes[u] % 16)
  {
    if u == 0 {
    } else {
      HexAt(bytes[1..], u - 1);
    }
  }

  /** Reads two digits; none when one of them is missing or no digit. */
  method UnpackByte(c: CString, at: nat, ghost n: nat) returns (uu: Option<Byte>)
    requires at <= |c| && n > 0
    ensures uu == None ==> Decode(c[at..], n) == []
    ensures uu != None ==> at + 2 <= |c| && Decode(c[at..], n) == [uu.value] + Decode(c[at + 2..], n - 1)
  {
    if Value(CharAt(c, at)) == None || Value(CharAt(c, at + 1)) == None {
      return None;
    }
    assert c[at..][2..] == c[at + 2..];
    return Some(Value(CharAt(c, at)).value * 16 + Value(CharAt(c, at + 1)).value);
  }

  lemma Tail(bytes: seq<Byte>, k: nat, b: Byte, rest: seq<Byte>)
    requires k <= |bytes| && bytes[k..] == [b] + rest
    ensures k < |bytes| && bytes[k] == b && bytes[k + 1..] == rest
  {
    assert bytes[k] == bytes[k..][0] && bytes[k + 1..] == bytes[k..][1..];
  }

  /** `SWIG_UnpackData`: reads the bytes at `from` into `u`; answers the place behind them, or none at a bad digit. */
  method UnpackData(c: CString, from: nat, u: array<Byte>) returns (end: Option<nat>)
    requires from <= |c|
    modifies u
    ensures var bytes := Decode(c[from..], u.Length);
            && u[..] == bytes + old(u[..])[|bytes|..]
            && end == if |bytes| == u.Length then Some(from + 2 * u.Length) else None
  {
    var at, k := from, 0;
    ghost var was, all := u[..], Decode(c[from..], u.Length);
    while k < u.Length
      invariant 0 <= k <= |all| && at == from + 2 * k <= |c|
      invariant forall j :: 0 <= j < k ==> u[j] == all[j]
      invariant forall j :: k <= j < u.Length ==> u[j] == was[j]
      invariant Decode(c[at..], u.Length - k) == all[k..]
    {
      var uu := UnpackByte(c, at, u.Length - k);
      if uu == None {
        break;
      }
      Tail(all, k, uu.value, Decode(c[at + 2..], u.Length - k - 1));
      u[k] := uu.value;
      at := at + 2;
      k := k + 1;
    }
    assert k == |all| && u[..] == all + was[k..];
    end := if k == u.Length then Some(at) else None;
  }

  /** The text that packs bytes and the name of their type. */
  function Packed(bytes: seq<Byte>, name: CString): CString {
    ['_'] + Hex(bytes) + name
  }

  /** `c` starts with the string `text` and its terminator. */
  ghost predicate Holds(c: seq<char>, text: CString) {
    |text| < |c| && c[..|text|] == text && c[|text|] == '\0'
  }

  /** Writes a string and its terminator. */
  method CopyString(c: array<char>, at: nat, name: CString)
    requires at + |name| < c.Length
    modifies c
    ensures c[..] == old(c[..at]) + name + ['\0'] + old(c[at + |name| + 1..])
  {
    var k := 0;
    while k < |name|
      invariant 0 <= k <= |name|
      invariant forall j :: 0 <= j < c.Length ==> c[j] == if at <= j < at + k then name[j - at] else old(c[j])
    {
      c[at + k] := name[k];
      k := k + 1;
    }
    c[at + k] := '\0';
  }

  /** `SWIG_PackDataName`: packs into the first `bsz` characters, or answers false when they are too few. */
  method PackDataName(buff: array<char>, bytes: seq<Byte>, name: Option<CString>, bsz: nat) returns (ok: bool)
    requires bsz <= buff.Length
    modifies buff
    ensures ok == (|Packed(bytes, NameText(name))| + 1 <= bsz)
    ensures ok ==> Holds(buff[..], Packed(bytes, NameText(name))) && buff[0] == '_'
    ensures buff[bsz..] == old(buff[bsz..]) && (!ok ==> buff[..] == old(buff[..]))
  {
    var lname := if name == None then 0 else |name.value|;
    if 2 * |bytes| + 2 + lname > bsz {
      return false;
    }
    buff[0] := '_';
    var r := PackData(buff, 1, bytes);
    assert buff[..r] == ['_'] + Hex(bytes);
    if lname > 0 {
      CopyString(buff, r, name.value);
    } else {
      buff[r] := '\0';
    }
    return true;
  }

  function NameText(name: Option<CString>): CString {
    if name == None then [] else name.value
  }

  /** `SWIG_PackVoidPtr`: packs the eight bytes of a pointer. */
  method PackVoidPtr(buff: array<char>, ptr: seq<Byte>, name: CString, bsz: nat) returns (ok: bool)
    requires bsz <= buff.Length && |ptr| == 8
    modifies buff
    ensures ok == (|Packed(ptr, name)| + 1 <= bsz)
    ensures ok ==> Holds(buff[..], Packed(ptr, name)) && buff[0] == '_'
    ensures buff[bsz..] == old(buff[bsz..])
  {
    if 2 * 8 + 2 > bsz {
      return false;
    }
    buff[0] := '_';
    var r := PackData(buff, 1, ptr);
    assert buff[..r] == ['_'] + Hex(ptr);
    if |name| + 1 > bsz - r {
      return false;
    }
    CopyString(buff, r, name);
    return true;
  }

  /** What unpacking a text gives: the bytes and the name, or for "NULL" zeros and the default name. */
  function UnpackNamed(text: CString, sz: nat, default: CString): Option<(seq<Byte>, CString)> {
    if text != [] && text[0] == '_' then Unpack(text[1..], sz)
    else if text == "NULL" then Some((seq(sz, _ => 0), default))
    else None
  }

  /** `SWIG_UnpackDataName` and, with eight bytes, `SWIG_UnpackVoidPtr`; answers the name behind the bytes. */
  method UnpackDataName(c: CString, u: array<Byte>, name: CString) returns (r: Option<CString>)
    modifies u
    ensures UnpackNamed(c, u.Length, name) == None <==> r == None
    ensures r != None ==> UnpackNamed(c, u.Length, name) == Some((u[..], r.value))
    ensures c == "NULL" ==> r == Some(name) && forall k :: 0 <= k < u.Length ==> u[k] == 0
    ensures (c == [] || c[0] != '_') && c != "NULL" ==> r == None
  {
    if CharAt(c, 0) != '_' {
      if c == "NULL" {
        var k := 0;
        while k < u.Length
          invariant 0 <= k <= u.Length && forall j :: 0 <= j < k ==> u[j] == 0
        {
          u[k] := 0;
          k := k + 1;
        }
        assert u[..] == seq(u.Length, _ => 0);
        return Some(name);
      } else {
        return None;
      }
    }
    var end := UnpackData(c, 1, u);
    if end == None {
      return None;
    }
    assert c[1..][2 * u.Length..] == c[end.value..];
    assert u[..] == Decode(c[1..], u.Length);
    return Some(c[end.value..]);
  }

  /** Unpacking what was packed gives back the bytes and the name, whatever the default name. */
  lemma PackedRoundTrip(bytes: seq<Byte>, name: CString, default: CString)
    ensures UnpackNamed(Packed(bytes, name), |bytes|, default) == Some((bytes, name))
  {
    assert Packed(bytes, name)[1..] == Hex(bytes) + name;
    UnpackHex(bytes, name);
  }

  /** Packing what was unpacked from a text gives back the text, except that zeros do not become "NULL". */
  lemma UnpackedRoundTrip(text: CString, sz: nat, default: CString)
    requires UnpackNamed(text, sz, default) != None
    ensures var (bytes, name) := UnpackNamed(text, sz, default).value;
            Packed(bytes, name) == text <==> text != "NULL"
  {
    if text != "NULL" {
      HexUnpack(text[1..], sz);
    }
  }
}
