/** The data file `createIndex` loads (index.c:300-336): records
    `<klen>,<key>,<vlen>,<value>` stored back to back, each length a decimal numeral. */
module Records {
  import opened Wrappers
  import opened Decimal
  import opened Nodes

  /** Why the record at an offset cannot be read whole. */
  datatype Malformed = MissingComma | KeyPastEnd

  /** One record as the loop reads it: the key, the value's length and offset, and the
      offset of the next record. */
  datatype Record = Record(key: seq<char>, len: nat, pos: nat, next: nat)

  /** The scan `while (*(buf + offset) != ',') offset++`: the first comma at or after
      `off`, or `|buf|` when the rest of the file has none. */
  function FindComma(buf: seq<char>, off: nat): (c: nat)
    requires off <= |buf|
    ensures off <= c <= |buf|
    ensures c < |buf| ==> buf[c] == ','
    decreases |buf| - off
  {
    if off == |buf| || buf[off] == ',' then off else FindComma(buf, off + 1)
  }

  /** The scan loop `while (*(buf + offset) != ',') offset++` of index.c:321-323 and
      index.c:328-330. The source runs past the end of the mapping when no comma is left;
      the model stops at the end of the file. */
  method ScanToComma(buf: seq<char>, off: nat) returns (c: nat)
    requires off <= |buf|
    ensures c == FindComma(buf, off)
  {
    c := off;
    while c < |buf| && buf[c] != ','
      invariant off <= c <= |buf|
      invariant FindComma(buf, c) == FindComma(buf, off)
    {
      c := c + 1;
    }
  }

  /** One round of the loop in `createIndex` (index.c:318-332), up to the insertion:
      read the key length, skip to the comma, take the key, skip the character after it,
      read the value length, skip to the comma; the value starts just past it. */
  method ReadRecord(buf: seq<char>, offset: nat) returns (r: Result<Record, Malformed>)
    requires offset < |buf|
    ensures r == RecordAt(buf, offset)
  {
    var lk := Atoi(buf, offset);
    var o := ScanToComma(buf, offset);
    if o == |buf| {
      return Err(MissingComma);
    }
    o := o + 1;
    if o + lk > |buf| {
      return Err(KeyPastEnd);
    }
    var key := buf[o..o + lk];
    o := o + lk + 1;
    if o > |buf| {
      return Err(MissingComma);
    }
    var lv := Atoi(buf, o);
    o := ScanToComma(buf, o);
    if o == |buf| {
      return Err(MissingComma);
    }
    o := o + 1;
    r := Ok(Record(key, lv, o, o + lv));
  }

  /** A scan stops at the first comma, or at the end of the file when there is none. */
  lemma {:induction false} FindCommaAt(buf: seq<char>, off: nat, c: nat)
    requires off <= c <= |buf| && (c < |buf| ==> buf[c] == ',')
    requires forall x :: off <= x < c ==> buf[x] != ','
    ensures FindComma(buf, off) == c
    decreases c - off
  {
    if off < c {
      FindCommaAt(buf, off + 1, c);
    }
  }

  /** The record at `off` (index.c:320-332): `lk` is the numeral before the first comma,
      the key the next `lk` characters, `lv` the numeral after the character that follows
      the key, the value starts just past the comma that ends `lv`, and the next record
      starts `lv` characters later. A record whose commas or key run past the end of the
      file is an error; the source reads past its mapping there. */
  function RecordAt(buf: seq<char>, off: nat): (r: Result<Record, Malformed>)
    requires off < |buf|
    ensures r.Ok? ==> off < r.value.pos <= |buf| && r.value.next == r.value.pos + r.value.len
  {
    var c1 := FindComma(buf, off);
    if c1 == |buf| then Err(MissingComma)
    else
      var lk := Atoi(buf, off);
      var ks := c1 + 1;
      if ks + lk > |buf| then Err(KeyPastEnd)
      else
        var off2 := ks + lk + 1;
        if off2 > |buf| then Err(MissingComma)
        else
          var c2 := FindComma(buf, off2);
          if c2 == |buf| then Err(MissingComma)
          else Ok(Record(buf[ks..ks + lk], Atoi(buf, off2), c2 + 1, c2 + 1 + Atoi(buf, off2)))
  }

  /** A record read whole has as many key characters as its first numeral says, and its
      value starts just past a comma. */
  lemma RecordAtShape(buf: seq<char>, off: nat)
    requires off < |buf| && RecordAt(buf, off).Ok?
    ensures var r := RecordAt(buf, off).value;
            && |r.key| == Atoi(buf, off) && buf[r.pos - 1] == ','
            && r.key == buf[FindComma(buf, off) + 1..FindComma(buf, off) + 1 + |r.key|]
  {
  }

  /** The descriptors the loop inserts, in file order, from the record at `off` on. The
      loop ends at the end of the file, or at the first record it cannot read whole. */
  function ParseFrom(buf: seq<char>, off: nat): (es: seq<Entry>)
    ensures off <= |buf| ==> |es| <= |buf| - off
    decreases |buf| - off
  {
    if off >= |buf| then []
    else
      match RecordAt(buf, off)
      case Err(_) => []
      case Ok(r) => [Entry(r.key, Value(r.len, r.pos))] + ParseFrom(buf, r.next)
  }

  // ---------------------------------------------------------------- writing records

  /** A key and the value stored for it in the data file. */
  datatype Item = Item(key: seq<char>, value: seq<char>)

  /** How one item is laid out in the data file. */
  function EncodeRecord(it: Item): seq<char> {
    Numeral(|it.key|) + "," + it.key + "," + Numeral(|it.value|) + "," + it.value
  }

  /** Where an item's value starts, counted from the start of its record. */
  function ValueOffset(it: Item): nat {
    |Numeral(|it.key|)| + |it.key| + |Numeral(|it.value|)| + 3
  }

  function EncodeAll(items: seq<Item>): seq<char> {
    if |items| == 0 then [] else EncodeRecord(items[0]) + EncodeAll(items[1..])
  }

  /** The descriptor each item of a file written from offset `base` on should get. */
  function Layout(items: seq<Item>, base: nat): (es: seq<Entry>)
    ensures |es| == |items|
  {
    if |items| == 0 then []
    else [Entry(items[0].key, Value(|items[0].value|, base + ValueOffset(items[0])))]
         + Layout(items[1..], base + |EncodeRecord(items[0])|)
  }

  /** A run of digits followed by a comma at offset `o`: the scan stops at that comma,
      offset `c`, and `atoi` reads the number the digits spell. */
  lemma DigitsAt(buf: seq<char>, pre: seq<char>, a: seq<char>, tail: seq<char>, o: nat, c: nat)
    requires |a| > 0 && AllDigits(a)
    requires buf == pre + (a + ([','] + tail)) && o == |pre| && c == o + |a|
    ensures c < |buf| && FindComma(buf, o) == c && Atoi(buf, o) == ValueOf(a)
  {
    assert buf[c] == ',';
    forall x | o <= x < c ensures buf[x] != ',' {
      assert buf[x] == a[x - o];
    }
    FindCommaAt(buf, o, c);
    assert buf[o..o + |a|] == a;
    AtoiDigits(buf, o, a);
  }

  /** Characters written verbatim at offset `o` are read back, up to offset `e`. */
  lemma TextAt(buf: seq<char>, pre: seq<char>, t: seq<char>, tail: seq<char>, o: nat, e: nat)
    requires buf == pre + (t + tail) && o == |pre| && e == o + |t|
    ensures e <= |buf| && buf[o..e] == t
  {
  }

  /** `RecordAt` once the two scans, the two numbers and the key are known; the value
      starts at `p`, just past the second comma. */
  lemma RecordAtFields(buf: seq<char>, o: nat, c1: nat, key: seq<char>, off2: nat, c2: nat, lv: nat, p: nat,
                       next: nat)
    requires o < |buf| && FindComma(buf, o) == c1 < |buf| && Atoi(buf, o) == |key|
    requires off2 == c1 + |key| + 2 <= |buf| && buf[c1 + 1..off2 - 1] == key
    requires FindComma(buf, off2) == c2 < |buf| && Atoi(buf, off2) == lv && p == c2 + 1 && next == p + lv
    ensures RecordAt(buf, o) == Ok(Record(key, lv, p, next))
  {
  }

  /** A length field at `o`, then a text of that length, then the rest: the scan stops
      at the comma `c`, `atoi` reads the length, and the text runs from `c + 1` to `e`. */
  lemma LengthAndText(buf: seq<char>, pre: seq<char>, a: seq<char>, t: seq<char>, rest: seq<char>,
                      o: nat, c: nat, e: nat)
    requires |a| > 0 && AllDigits(a) && ValueOf(a) == |t|
    requires buf == pre + (a + ([','] + (t + rest)))
    requires o == |pre| && c == o + |a| && e == c + 1 + |t|
    ensures && o < |buf| && FindComma(buf, o) == c < |buf| && Atoi(buf, o) == |t|
            && e <= |buf| && buf[c + 1..e] == t
            && buf == (pre + a + [','] + t) + rest
  {
    var t1 := t + rest;
    DigitsAt(buf, pre, a, t1, o, c);
    var p1 := pre + a + [','];
    assert buf == p1 + t1;
    TextAt(buf, p1, t, rest, c + 1, e);
  }

  /** Where the fields of a record laid out after `pre` are found, its lengths spelled by
      the digit runs `a` and `b`. */
  lemma FieldFacts(buf: seq<char>, pre: seq<char>, a: seq<char>, key: seq<char>, b: seq<char>,
                   value: seq<char>, rest: seq<char>, c1: nat, off2: nat, c2: nat, p: nat)
    requires |a| > 0 && AllDigits(a) && ValueOf(a) == |key|
    requires |b| > 0 && AllDigits(b) && ValueOf(b) == |value|
    requires buf == pre + (a + ([','] + (key + ([','] + (b + ([','] + (value + rest)))))))
    requires c1 == |pre| + |a| && off2 == c1 + |key| + 2 && c2 == off2 + |b| && p == c2 + 1
    ensures && |pre| < |buf| && FindComma(buf, |pre|) == c1 < |buf| && Atoi(buf, |pre|) == |key|
            && off2 <= |buf| && buf[c1 + 1..off2 - 1] == key
            && FindComma(buf, off2) == c2 < |buf| && Atoi(buf, off2) == |value|
            && p + |value| <= |buf| && buf[p..p + |value|] == value
  {
    var t2 := b + ([','] + (value + rest));
    LengthAndText(buf, pre, a, key, [','] + t2, |pre|, c1, off2 - 1);
    var p2 := pre + a + [','] + key + [','];
    assert buf == p2 + t2;
    LengthAndText(buf, p2, b, value, rest, off2, c2, p + |value|);
  }

  /** A record laid out field by field after `pre`, its lengths spelled by the digit
      runs `a` and `b`, is read back whole; its value starts at `p`. */
  lemma FieldsAt(buf: seq<char>, p: nat, next: nat, pre: seq<char>, a: seq<char>, key: seq<char>, b: seq<char>,
                 value: seq<char>, rest: seq<char>)
    requires |a| > 0 && AllDigits(a) && ValueOf(a) == |key|
    requires |b| > 0 && AllDigits(b) && ValueOf(b) == |value|
    requires buf == pre + (a + ([','] + (key + ([','] + (b + ([','] + (value + rest)))))))
    requires p == |pre| + |a| + |key| + |b| + 3 && next == p + |value|
    ensures && |pre| < |buf|
            && RecordAt(buf, |pre|) == Ok(Record(key, |value|, p, next))
            && p + |value| <= |buf| && buf[p..p + |value|] == value
  {
    var c1 := |pre| + |a|;
    var off2 := c1 + |key| + 2;
    var c2 := off2 + |b|;
    FieldFacts(buf, pre, a, key, b, value, rest, c1, off2, c2, p);
    RecordAtFields(buf, |pre|, c1, key, off2, c2, |value|, p, next);
  }

  /** A record and what follows it, read field by field. */
  lemma EncodeRecordFields(it: Item, rest: seq<char>)
    ensures EncodeRecord(it) + rest
            == Numeral(|it.key|) + ([','] + (it.key + ([','] + (Numeral(|it.value|) + ([','] + (it.value + rest))))))
  {
  }

  /** A written record is read back whole: its key, its value's length and the offset `p`
      its value starts at, and the next record starts right after it, at `next`. */
  lemma RecordAtEncoded(buf: seq<char>, p: nat, next: nat, pre: seq<char>, it: Item, rest: seq<char>)
    requires buf == pre + EncodeRecord(it) + rest && p == |pre| + ValueOffset(it) && next == p + |it.value|
    ensures && |pre| < |buf|
            && RecordAt(buf, |pre|) == Ok(Record(it.key, |it.value|, p, next))
            && p + |it.value| <= |buf| && buf[p..p + |it.value|] == it.value
  {
    EncodeRecordFields(it, rest);
    ValueOfNumeral(|it.key|);
    ValueOfNumeral(|it.value|);
    assert buf == pre + (EncodeRecord(it) + rest);
    FieldsAt(buf, p, next, pre, Numeral(|it.key|), it.key, Numeral(|it.value|), it.value, rest);
  }

  /** One step of the loop: a record read whole contributes its descriptor, and loading
      goes on at the next record. */
  lemma ParseFromStep(buf: seq<char>, off: nat, r: Record)
    requires off < |buf| && RecordAt(buf, off) == Ok(r)
    ensures ParseFrom(buf, off) == [Entry(r.key, Value(r.len, r.pos))] + ParseFrom(buf, r.next)
  {
  }

  /** A record is its header, then its value. */
  lemma EncodeRecordLength(it: Item)
    ensures |EncodeRecord(it)| == ValueOffset(it) + |it.value|
  {
  }

  /** The first record of a written file is read back whole, and the next one starts
      right after it. */
  lemma ParseEncodedFirst(pre: seq<char>, items: seq<Item>, buf: seq<char>, pre2: seq<char>, rest: seq<char>)
    requires |items| > 0 && buf == pre + EncodeAll(items)
    requires pre2 == pre + EncodeRecord(items[0]) && rest == EncodeAll(items[1..])
    ensures |pre| < |buf| && buf == pre2 + rest
    ensures RecordAt(buf, |pre|)
            == Ok(Record(items[0].key, |items[0].value|, |pre| + ValueOffset(items[0]), |pre2|))
  {
    var it := items[0];
    assert EncodeAll(items) == EncodeRecord(it) + rest;
    AppendAssoc(pre, EncodeRecord(it), rest);
    var pos := |pre| + ValueOffset(it);
    EncodeRecordLength(it);
    assert |pre2| == pos + |it.value|;
    RecordAtEncoded(buf, pos, |pre2|, pre, it, rest);
  }

  /** Equal heads and equal tails make equal sequences. */
  lemma SameHead<T>(a: seq<T>, b: seq<T>, x: seq<T>, ta: seq<T>, tb: seq<T>)
    requires a == x + ta && b == x + tb && ta == tb
    ensures a == b
  {
  }

  lemma AppendAssoc<T>(a: seq<T>, b: seq<T>, c: seq<T>)
    ensures a + (b + c) == (a + b) + c
  {
  }

  /** The layout of a file starts with its first record's descriptor. */
  lemma LayoutFirst(pre: seq<char>, items: seq<Item>)
    requires |items| > 0
    ensures var pre2 := pre + EncodeRecord(items[0]);
            Layout(items, |pre|)
              == [Entry(items[0].key, Value(|items[0].value|, |pre| + ValueOffset(items[0])))]
                 + Layout(items[1..], |pre2|)
  {
  }

  /** The first record of a written file contributes the first item's descriptor, and
      loading goes on where the rest of the items were written. */
  lemma ParseHead(whole: seq<char>, pre: seq<char>, items: seq<Item>, pre2: seq<char>)
    requires |items| > 0 && whole == pre + EncodeAll(items) && pre2 == pre + EncodeRecord(items[0])
    ensures whole == pre2 + EncodeAll(items[1..])
    ensures ParseFrom(whole, |pre|)
            == [Entry(items[0].key, Value(|items[0].value|, |pre| + ValueOffset(items[0])))]
               + ParseFrom(whole, |pre2|)
  {
    var r := Record(items[0].key, |items[0].value|, |pre| + ValueOffset(items[0]), |pre2|);
    ParseEncodedFirst(pre, items, whole, pre2, EncodeAll(items[1..]));
    ParseFromStep(whole, |pre|, r);
  }

  /** Loading a file of written records finds every item, in order, each with the length
      and offset of its value. */
  lemma {:induction false} ParseEncoded(whole: seq<char>, pre: seq<char>, items: seq<Item>)
    requires whole == pre + EncodeAll(items)
    ensures ParseFrom(whole, |pre|) == Layout(items, |pre|)
    decreases |items|
  {
    if |items| == 0 {
      ParseEncodedNone(whole, pre, items);
    } else {
      var pre2 := pre + EncodeRecord(items[0]);
      ParseHead(whole, pre, items, pre2);
      ParseEncoded(whole, pre2, items[1..]);
      ParseEncodedStep(whole, pre, items, pre2);
    }
  }

  /** A data file written from `items` loads, from its start, as their layout: every
      key in order, each with its value's length and offset. */
  lemma LoadWritten(items: seq<Item>)
    ensures ParseFrom(EncodeAll(items), 0) == Layout(items, 0)
  {
    var empty: seq<char> := [];
    assert EncodeAll(items) == empty + EncodeAll(items);
    ParseEncoded(EncodeAll(items), empty, items);
  }

  lemma ParseEncodedNone(whole: seq<char>, pre: seq<char>, items: seq<Item>)
    requires |items| == 0 && whole == pre + EncodeAll(items)
    ensures ParseFrom(whole, |pre|) == Layout(items, |pre|)
  {
    assert |whole| == |pre|;
  }

  /** The first descriptor read, the rest of the file loads as the rest of the items. */
  lemma ParseEncodedStep(whole: seq<char>, pre: seq<char>, items: seq<Item>, pre2: seq<char>)
    requires |items| > 0 && pre2 == pre + EncodeRecord(items[0])
    requires ParseFrom(whole, |pre|)
             == [Entry(items[0].key, Value(|items[0].value|, |pre| + ValueOffset(items[0])))]
                + ParseFrom(whole, |pre2|)
    requires ParseFrom(whole, |pre2|) == Layout(items[1..], |pre2|)
    ensures ParseFrom(whole, |pre|) == Layout(items, |pre|)
  {
    var first := [Entry(items[0].key, Value(|items[0].value|, |pre| + ValueOffset(items[0])))];
    LayoutFirst(pre, items);
    SameHead(ParseFrom(whole, |pre|), Layout(items, |pre|), first,
             ParseFrom(whole, |pre2|), Layout(items[1..], |pre2|));
  }
}
