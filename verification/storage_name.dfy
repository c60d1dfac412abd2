/** The `filename` callback of multer's disk storage, identical in server.js
    and app.js: the stored name is the form field name, a dash, the
    millisecond timestamp, a dash, a rounded random number, and the original
    name's `extname`. The clock and the random source are parameters. */
module StorageName {
  import opened Options
  import opened Text
  import opened NodePath

  /** The largest value of `Math.round(Math.random() * 1e9)`. */
  const MaxRandom: nat := 1_000_000_000

  /** A value `Math.round(Math.random() * 1e9)` can take. */
  type RandomSuffix = r: nat | r <= MaxRandom

  /** What a stored name encodes besides the field name. */
  datatype NameParts = NameParts(timestamp: nat, random: nat, ext: string)

  /** `Date.now() + '-' + Math.round(Math.random() * 1E9)`. */
  function UniqueSuffix(timestamp: nat, random: RandomSuffix): (suffix: string)
    ensures |suffix| >= 3
    ensures IsDigit(suffix[0]) && IsDigit(suffix[|suffix| - 1])
    ensures '.' !in suffix && '/' !in suffix
  {
    var t, r := Decimal(timestamp), Decimal(random);
    var suffix := t + "-" + r;
    assert forall i :: 0 <= i < |suffix| ==> suffix[i] == '-' || IsDigit(suffix[i]) by {
      forall i | 0 <= i < |suffix|
        ensures suffix[i] == '-' || IsDigit(suffix[i])
      {
        if i < |t| {
          assert suffix[i] == t[i];
        } else if i > |t| {
          assert suffix[i] == r[i - |t| - 1];
        }
      }
    }
    suffix
  }

  /** `fieldname + '-' + Date.now() + '-' + Math.round(Math.random() * 1E9)
      + path.extname(originalname)`. */
  function StoredName(fieldname: string, timestamp: nat, random: RandomSuffix,
                      originalname: string): (name: string)
    ensures |fieldname| + 4 + |Extname(originalname)| <= |name|
    ensures name[..|fieldname| + 1] == fieldname + "-"
    ensures name[|name| - |Extname(originalname)|..] == Extname(originalname)
  {
    var head, ext := fieldname + "-", Extname(originalname);
    var name := head + (UniqueSuffix(timestamp, random) + ext);
    assert name[..|head|] == head;
    name
  }

  /** Reads the timestamp, the random number and the extension back out of a
      stored name, given the field name it starts with. */
  function ParseStoredName(fieldname: string, name: string): Option<NameParts>
  {
    var head := fieldname + "-";
    if |name| < |head| || name[..|head|] != head then None
    else ParseSuffix(name[|head|..])
  }

  /** Reads `<digits>-<digits><extension>`. */
  function ParseSuffix(rest: string): Option<NameParts>
  {
    var k := DigitPrefixLength(rest);
    if k == 0 || k == |rest| || rest[k] != '-' then None
    else
      var tail := rest[k + 1..];
      var j := DigitPrefixLength(tail);
      if j == 0 then None
      else Some(NameParts(ParseDecimal(rest[..k]), ParseDecimal(tail[..j]), tail[j..]))
  }

  /** The unique suffix followed by an extension reads back as its parts. */
  lemma ParseSuffixRoundTrip(timestamp: nat, random: RandomSuffix, ext: string)
    requires ext == "" || ext[0] == '.'
    ensures ParseSuffix(UniqueSuffix(timestamp, random) + ext)
      == Some(NameParts(timestamp, random, ext))
  {
    var x := UniqueSuffix(timestamp, random) + ext;
    var y := Decimal(timestamp) + ("-" + (Decimal(random) + ext));
    assert x == y;
    ParseNumerals(timestamp, random, ext);
  }

  lemma ParseNumerals(timestamp: nat, random: nat, ext: string)
    requires ext == "" || ext[0] == '.'
    ensures ParseSuffix(Decimal(timestamp) + ("-" + (Decimal(random) + ext)))
      == Some(NameParts(timestamp, random, ext))
  {
    ParseDigitRuns(Decimal(timestamp), Decimal(random), ext);
    ParseDecimalOfDecimal(timestamp);
    ParseDecimalOfDecimal(random);
  }

  /** Two non-empty digit runs joined by a dash and followed by an extension
      split back into the values of the runs and that extension. */
  lemma ParseDigitRuns(t: string, r: string, ext: string)
    requires |t| >= 1 && AllDigits(t)
    requires |r| >= 1 && AllDigits(r)
    requires ext == "" || ext[0] == '.'
    ensures ParseSuffix(t + ("-" + (r + ext)))
      == Some(NameParts(ParseDecimal(t), ParseDecimal(r), ext))
  {
    var tail := r + ext;
    var rest := t + ("-" + tail);
    DigitRunThen(t, "-" + tail);
    assert rest[|t|] == '-' && rest[|t| + 1..] == tail;
    DigitRunThen(r, ext);
  }

  /** A digit run followed by a non-digit is read as exactly that run. */
  lemma DigitRunThen(d: string, rest: string)
    requires AllDigits(d)
    requires rest == [] || !IsDigit(rest[0])
    ensures DigitPrefixLength(d + rest) == |d|
    ensures (d + rest)[..|d|] == d && (d + rest)[|d|..] == rest
  {
    DigitPrefixOfDigits(d, rest);
  }

  /** A stored name determines the timestamp, the random number and the
      extension it was built from: the extension never starts with a digit,
      and neither numeral holds a dash. */
  lemma ParseStoredNameRoundTrip(fieldname: string, timestamp: nat, random: RandomSuffix,
                                 originalname: string)
    ensures ParseStoredName(fieldname, StoredName(fieldname, timestamp, random, originalname))
      == Some(NameParts(timestamp, random, Extname(originalname)))
  {
    var rest := UniqueSuffix(timestamp, random) + Extname(originalname);
    ParseAfterFieldName(fieldname, rest);
    ParseSuffixRoundTrip(timestamp, random, Extname(originalname));
  }

  lemma ParseAfterFieldName(fieldname: string, rest: string)
    ensures ParseStoredName(fieldname, fieldname + "-" + rest) == ParseSuffix(rest)
  {
    var head := fieldname + "-";
    assert (head + rest)[..|head|] == head;
    assert (head + rest)[|head|..] == rest;
  }

  /** Two stored names for one field name coincide exactly when the
      timestamps, the random numbers and the original extensions (with their
      letter case) coincide: distinct (timestamp, random) pairs never collide,
      and the original name matters only through its extension. */
  lemma StoredNameEqualIff(fieldname: string, t1: nat, r1: RandomSuffix, a: string,
                           t2: nat, r2: RandomSuffix, b: string)
    ensures StoredName(fieldname, t1, r1, a) == StoredName(fieldname, t2, r2, b)
      <==> t1 == t2 && r1 == r2 && Extname(a) == Extname(b)
  {
    ParseStoredNameRoundTrip(fieldname, t1, r1, a);
    ParseStoredNameRoundTrip(fieldname, t2, r2, b);
  }
}
