/**
 A printer for headers: the known fields in their declared order, then the extras. Every
 header with plain values is read back from its own print.
 */
module HeaderPrinter {
  import opened Wrappers
  import opened HeaderGrammar
  import opened HeaderDocuments

  /** The values of the known fields, in the order of `KNOWN_KEYS`. */
  function KnownValues(h: Header): (vs: seq<Value>)
    ensures |vs| == |KNOWN_KEYS|
  {
    [ OptValue(h.id), TextValue(h.family), OptValue(h.kind), TextValue(h.title), TextValue(h.status),
      DateValue(h.created), TextValue(h.owner), OptValue(h.phase), OptValue(h.work), OptValue(h.slice),
      OptValue(h.tree), Items(h.plans), Items(h.supersedes), OptValue(h.supersededBy),
      Items(h.correctedBy), OptValue(h.corrects), Items(h.relates), OptValue(h.was),
      Flag(h.vendored), OptValue(h.origin) ]
  }

  ghost predicate Enumerates(keys: seq<string>, extra: map<string, string>) {
    && (forall key :: key in keys <==> key in extra)
    && (forall i, j | 0 <= i < j < |keys| :: keys[i] != keys[j])
  }

  /** The fields of a header: the known ones, then the extras in the given order. */
  function FieldsOf(h: Header, keys: seq<string>): (fields: seq<Field>)
    requires forall key | key in keys :: key in h.extra
    ensures |fields| == |KNOWN_KEYS| + |keys|
    ensures forall i | 0 <= i < |KNOWN_KEYS| :: fields[i] == Field(KNOWN_KEYS[i], KnownValues(h)[i])
    ensures forall i | 0 <= i < |keys| :: fields[|KNOWN_KEYS| + i] == Field(keys[i], TextValue(h.extra[keys[i]]))
  {
    seq(|KNOWN_KEYS|, i requires 0 <= i < |KNOWN_KEYS| => Field(KNOWN_KEYS[i], KnownValues(h)[i]))
    + seq(|keys|, i requires 0 <= i < |keys| => Field(keys[i], TextValue(h.extra[keys[i]])))
  }

  function PrintHeader(h: Header, keys: seq<string>, text: string): string
    requires forall key | key in keys :: key in h.extra
  {
    Document(PrintFields(FieldsOf(h, keys)), text)
  }

  /** Every value is one the grammar carries, and no extra key is a known one. */
  ghost predicate PlainHeader(h: Header) {
    && (forall i | 0 <= i < |KNOWN_KEYS| :: Plain(KnownValues(h)[i]))
    && (forall key | key in h.extra :: IsKey(key) && key !in KNOWN_KEYS && Plain(TextValue(h.extra[key])))
  }

  lemma KnownKeysDistinct(i: nat, j: nat)
    requires i < j < |KNOWN_KEYS|
    ensures KNOWN_KEYS[i] != KNOWN_KEYS[j]
  {}

  /** A known key stands at one place only. */
  lemma KeyAt(i: nat, j: nat)
    requires i < |KNOWN_KEYS| && j < |KNOWN_KEYS|
    ensures KNOWN_KEYS[i] == KNOWN_KEYS[j] <==> i == j
  {
    if i < j {
      KnownKeysDistinct(i, j);
    } else if j < i {
      KnownKeysDistinct(j, i);
    }
  }

  /** The kinds of the known keys, by place. */
  lemma KindAt(i: nat)
    requires i < |KNOWN_KEYS|
    ensures KNOWN_KEYS[i] == "created" <==> i == 5
    ensures KNOWN_KEYS[i] == "vendored" <==> i == 18
    ensures KNOWN_KEYS[i] in LIST_FIELDS <==> i == 11 || i == 12 || i == 14 || i == 16
  {
    SpecialKeys();
    KeyAt(i, 5);
    KeyAt(i, 18);
    KeyAt(i, 11);
    KeyAt(i, 12);
    KeyAt(i, 14);
    KeyAt(i, 16);
  }

  lemma SpecialKeys()
    ensures KNOWN_KEYS[5] == "created" && KNOWN_KEYS[18] == "vendored"
    ensures LIST_FIELDS == [KNOWN_KEYS[11], KNOWN_KEYS[12], KNOWN_KEYS[14], KNOWN_KEYS[16]]
  {}

  lemma ValueKinds(h: Header, i: nat)
    requires i < |KNOWN_KEYS|
    ensures var v := KnownValues(h)[i];
      if i == 5 then v.Null? || v.Day?
      else if i == 18 then v.Flag?
      else if i == 11 || i == 12 || i == 14 || i == 16 then v.Items?
      else v.Null? || v.Word?
  {}

  lemma KnownFits(h: Header, i: nat)
    requires i < |KNOWN_KEYS|
    ensures Fits(KNOWN_KEYS[i], KnownValues(h)[i])
  {
    KindAt(i);
    ValueKinds(h, i);
  }

  lemma KnownIsKey(i: nat)
    requires i < |KNOWN_KEYS|
    ensures IsKey(KNOWN_KEYS[i])
  {}

  lemma SpecialKeysAreKnown()
    ensures "created" in KNOWN_KEYS && "vendored" in KNOWN_KEYS
    ensures forall key | key in LIST_FIELDS :: key in KNOWN_KEYS
  {
    SpecialKeys();
  }

  lemma FieldsAreWritable(h: Header, keys: seq<string>)
    requires PlainHeader(h) && Enumerates(keys, h.extra)
    ensures AllWritable(FieldsOf(h, keys))
  {
    var n := |KNOWN_KEYS|;
    var fields := FieldsOf(h, keys);
    forall i | 0 <= i < |fields| ensures Writable(fields[i]) {
      if i < n {
        KnownFits(h, i);
        KnownIsKey(i);
      } else {
        assert keys[i - n] in h.extra;
        SpecialKeysAreKnown();
      }
    }
    forall i, j | 0 <= i < j < |fields| ensures fields[i].key != fields[j].key {
      if j < n {
        KnownKeysDistinct(i, j);
      } else {
        assert keys[j - n] in h.extra;
        if i < n {
          assert KNOWN_KEYS[i] in KNOWN_KEYS;
        }
      }
    }
  }

  /** The known keys stand in the dict with the header's values. */
  ghost predicate HoldsKnown(h: Header, b: Body) {
    forall i | 0 <= i < |KNOWN_KEYS| :: KNOWN_KEYS[i] in b && b[KNOWN_KEYS[i]] == KnownValues(h)[i]
  }

  lemma NamesCarried(h: Header, b: Body)
    requires HoldsKnown(h, b)
    ensures CarriesNames(b, h)
  {
    assert KNOWN_KEYS[0] == "id" && KNOWN_KEYS[1] == "family" && KNOWN_KEYS[2] == "kind" && KNOWN_KEYS[3] == "title";
    assert KNOWN_KEYS[4] == "status" && KNOWN_KEYS[5] == "created" && KNOWN_KEYS[6] == "owner";
  }

  lemma PlacesCarried(h: Header, b: Body)
    requires HoldsKnown(h, b)
    ensures CarriesPlaces(b, h)
  {
    assert KNOWN_KEYS[7] == "phase" && KNOWN_KEYS[8] == "work" && KNOWN_KEYS[9] == "slice" && KNOWN_KEYS[10] == "tree";
    assert KNOWN_KEYS[17] == "was" && KNOWN_KEYS[18] == "vendored" && KNOWN_KEYS[19] == "origin";
  }

  lemma LinksCarried(h: Header, b: Body)
    requires HoldsKnown(h, b)
    ensures CarriesLinks(b, h)
  {
    assert KNOWN_KEYS[11] == "plans" && KNOWN_KEYS[12] == "supersedes" && KNOWN_KEYS[13] == "superseded_by";
    assert KNOWN_KEYS[14] == "corrected_by" && KNOWN_KEYS[15] == "corrects" && KNOWN_KEYS[16] == "relates";
  }

  /** The dict of two lists of fields put together, key by key. */
  lemma BodyOfTwo(fields: seq<Field>, known: seq<string>, values: seq<Value>, keys: seq<string>, more: seq<Value>)
    requires |known| == |values| && |keys| == |more| && |fields| == |known| + |keys|
    requires forall i | 0 <= i < |known| :: fields[i] == Field(known[i], values[i])
    requires forall i | 0 <= i < |keys| :: fields[|known| + i] == Field(keys[i], more[i])
    requires DistinctKeys(fields)
    ensures var b := BodyOf(fields, |fields|);
      && (forall i | 0 <= i < |known| :: known[i] in b && b[known[i]] == values[i])
      && (forall i | 0 <= i < |keys| :: keys[i] in b && b[keys[i]] == more[i])
      && (forall key | key in b :: key in known || key in keys)
  {
    var b := BodyOf(fields, |fields|);
    BodyOfExactly(fields, |fields|);
    forall i | 0 <= i < |keys| ensures keys[i] in b && b[keys[i]] == more[i] {
      assert fields[|known| + i].key in b;
    }
    forall i | 0 <= i < |known| ensures known[i] in b && b[known[i]] == values[i] {
      assert fields[i].key in b;
    }
    forall key | key in b ensures key in known || key in keys {
      var i :| 0 <= i < |fields| && fields[i].key == key;
      if i >= |known| {
        assert fields[|known| + (i - |known|)].key == keys[i - |known|];
      }
    }
  }

  lemma ExtraFieldsCarried(b: Body, known: seq<string>, keys: seq<string>, extra: map<string, string>)
    requires Enumerates(keys, extra)
    requires forall key | key in extra :: key !in known
    requires forall i | 0 <= i < |keys| :: keys[i] in b && b[keys[i]] == TextValue(extra[keys[i]])
    requires forall key | key in b :: key in known || key in keys
    ensures forall key :: (key in b && key !in known) <==> key in extra
    ensures forall key | key in extra :: b[key] == TextValue(extra[key])
  {
    forall key | key in extra ensures key in b && b[key] == TextValue(extra[key]) {
      var i :| 0 <= i < |keys| && keys[i] == key;
    }
  }

  function ExtraValues(h: Header, keys: seq<string>): (more: seq<Value>)
    requires forall key | key in keys :: key in h.extra
    ensures |more| == |keys| && forall i | 0 <= i < |keys| :: more[i] == TextValue(h.extra[keys[i]])
  {
    seq(|keys|, i requires 0 <= i < |keys| => TextValue(h.extra[keys[i]]))
  }

  lemma FieldsBody(h: Header, keys: seq<string>, known: seq<string>, values: seq<Value>, fields: seq<Field>)
    requires |known| == |values| && Enumerates(keys, h.extra)
    requires |fields| == |known| + |keys|
    requires forall i | 0 <= i < |known| :: fields[i] == Field(known[i], values[i])
    requires forall i | 0 <= i < |keys| :: fields[|known| + i] == Field(keys[i], TextValue(h.extra[keys[i]]))
    requires DistinctKeys(fields) && forall key | key in h.extra :: key !in known
    ensures var b := BodyOf(fields, |fields|);
      && (forall i | 0 <= i < |known| :: known[i] in b && b[known[i]] == values[i])
      && (forall key :: (key in b && key !in known) <==> key in h.extra)
      && (forall key | key in h.extra :: b[key] == TextValue(h.extra[key]))
  {
    BodyOfTwo(fields, known, values, keys, ExtraValues(h, keys));
    ExtraFieldsCarried(BodyOf(fields, |fields|), known, keys, h.extra);
  }

  lemma FieldsHoldKnown(h: Header, keys: seq<string>)
    requires PlainHeader(h) && Enumerates(keys, h.extra)
    requires AllWritable(FieldsOf(h, keys))
    ensures var b := BodyOf(FieldsOf(h, keys), |FieldsOf(h, keys)|);
      && HoldsKnown(h, b)
      && (forall key :: (key in b && key !in KNOWN_KEYS) <==> key in h.extra)
      && (forall key | key in h.extra :: b[key] == TextValue(h.extra[key]))
  {
    FieldsBody(h, keys, KNOWN_KEYS, KnownValues(h), FieldsOf(h, keys));
  }

  lemma KnownCarried(h: Header, b: Body)
    requires PlainHeader(h) && HoldsKnown(h, b)
    ensures CarriesNames(b, h) && CarriesPlaces(b, h) && CarriesLinks(b, h)
  {
    NamesCarried(h, b);
    PlacesCarried(h, b);
    LinksCarried(h, b);
  }

  lemma FieldsCarryHeader(h: Header, keys: seq<string>)
    requires PlainHeader(h) && Enumerates(keys, h.extra)
    requires AllWritable(FieldsOf(h, keys))
    ensures CarriesHeader(BodyOf(FieldsOf(h, keys), |FieldsOf(h, keys)|), h)
  {
    FieldsHoldKnown(h, keys);
    KnownCarried(h, BodyOf(FieldsOf(h, keys), |FieldsOf(h, keys)|));
  }

  /** Every plain header is read back from its print, whatever text follows. */
  lemma PrintedHeaderIsReadBack(h: Header, keys: seq<string>, text: string)
    requires PlainHeader(h) && Enumerates(keys, h.extra)
    ensures ParseHeader(PrintHeader(h, keys, text)) == Success(Some(h))
  {
    FieldsAreWritable(h, keys);
    FieldsCarryHeader(h, keys);
    HeaderRoundTrip(h, FieldsOf(h, keys), text);
  }
}
