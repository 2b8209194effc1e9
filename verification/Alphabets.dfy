/** The alphabets of base 64 and base 32, as the tables of RFC 4648 print them. */
module Alphabets {
  import Base32
  import Base64
  import opened Bytes
  import opened Fips180
  import opened Rfc4648

  const BASE64 := "ABCDEFGHIJKLM" + "NOPQRSTUVWXYZ" + "abcdefghijklm" + "nopqrstuvwxyz" + "0123456789+/"
  const BASE32 := "abcdefghijklm" + "nopqrstuvwxyz" + "234567"

  /** Table 1. */
  lemma Symbol64Is(v: byte)
    requires v < 64
    ensures |BASE64| == 64 && CharOf(Symbol64(v)) == BASE64[v as int]
  {
    if v < 13 {
    } else if v < 26 {
    } else if v < 39 {
    } else if v < 52 {
    } else {
    }
  }

  /** Table 3, in lower case. */
  lemma Symbol32Is(v: byte)
    requires v < 32
    ensures |BASE32| == 32 && CharOf(Symbol32(v)) == BASE32[v as int]
  {
    if v < 13 {
    } else if v < 26 {
    } else {
    }
  }

  lemma ValueIs(c: byte)
    requires Base64.InAlphabet(c)
    ensures Base64.Value(c) < 64 && Symbol64(Base64.Value(c)) == c
  {
  }

  lemma CharIs(v: byte)
    requires v < 64
    ensures Base64.InAlphabet(Symbol64(v)) && Base64.Value(Symbol64(v)) == v
  {
  }

  /** The base 64 decoder reads exactly the characters of the table, each as its place. */
  lemma Base64ReadsTable(c: byte)
    ensures Base64.InAlphabet(c) <==> CharOf(c) in BASE64
    ensures |BASE64| == 64 && (Base64.InAlphabet(c) ==> BASE64[Base64.Value(c) as int] == CharOf(c))
  {
    Symbol64Is(0);
    forall v: byte | v < 64
      ensures BASE64[v as int] == CharOf(Symbol64(v))
    {
      Symbol64Is(v);
    }
    ReadsTable(BASE64, c);
  }

  lemma ReadsTable(table: string, c: byte)
    requires |table| == 64 && forall v: byte | v < 64 :: table[v as int] == CharOf(Symbol64(v))
    ensures Base64.InAlphabet(c) <==> CharOf(c) in table
    ensures Base64.InAlphabet(c) ==> table[Base64.Value(c) as int] == CharOf(c)
  {
    hide Symbol64, Base64.Value, Base64.InAlphabet;
    if Base64.InAlphabet(c) {
      ValueIs(c);
      assert table[Base64.Value(c) as int] == CharOf(c);
    }
    if CharOf(c) in table {
      var i :| 0 <= i < 64 && table[i] == CharOf(c);
      var v := i as byte;
      assert v as int == i;
      CharIs(v);
      SameCode(c, Symbol64(v));
    }
  }

  lemma SameCode(c: byte, d: byte)
    requires CharOf(c) == CharOf(d)
    ensures c == d
  {
  }

  /** The base 32 decoder reads the table, capital letters as small ones, and also an opening brace, as a 2. */
  lemma Base32ReadsTable(c: byte)
    ensures var v, d := Base32.Convert(c), CharOf(c);
            && |BASE32| == 32
            && (v < 32 ==> BASE32[v as int] == if d == '{' then '2' else if 'A' <= d <= 'Z' then (d as int + 32) as char else d)
            && (v < 32 <==> 'a' <= d <= '{' || 'A' <= d <= 'Z' || '2' <= d <= '7')
            && (v == 32 <==> d == '=')
  {
    var v := Base32.Convert(c);
    Symbol32Is(0);
    if v < 32 {
      Symbol32Is(v);
      PlaceIs(c);
    }
    Ranges(c);
    hide Symbol32, Base32.Convert;
  }

  lemma PlaceIs(c: byte)
    requires Base32.Convert(c) < 32
    ensures CharOf(Symbol32(Base32.Convert(c))) ==
            var d := CharOf(c); if d == '{' then '2' else if 'A' <= d <= 'Z' then (d as int + 32) as char else d
  {
  }

  lemma Ranges(c: byte)
    ensures var v, d := Base32.Convert(c), CharOf(c);
            (v < 32 <==> 'a' <= d <= '{' || 'A' <= d <= 'Z' || '2' <= d <= '7') && (v == 32 <==> d == '=')
  {
  }
}
