/** Device-data entries as the ingestion code sees them: the field values of
    one record, the mutable JavaScript object that carries them through the
    pipeline, and the SHA-1 hasher that the identity rules feed. */
module Records {
  import opened Wrappers

  /** The integers a JavaScript number holds exactly: magnitude at most
      `2^53 - 1`.  All of them are below `10^21`, from where `String`
      switches to exponent notation. */
  const MaxSafeInteger: int := 0x1F_FFFF_FFFF_FFFF

  type SafeInteger = n: int | -MaxSafeInteger <= n <= MaxSafeInteger

  /** The JavaScript value held by an entry's `value` field.  Only the forms
      whose `String(...)` rendering the model spells out are listed. */
  datatype Value = Text(s: string) | Number(n: SafeInteger) | Boolean(b: bool) | Null | Undefined

  function Digit(d: nat): (c: char)
    requires d < 10
    ensures '0' <= c <= '9'
    ensures c as int - '0' as int == d
  {
    "0123456789"[d]
  }

  /** Decimal digits of `n`, most significant first, without leading zeros. */
  function DecimalDigits(n: nat): (r: string)
    ensures |r| >= 1
    ensures forall i :: 0 <= i < |r| ==> '0' <= r[i] <= '9'
    decreases n
  {
    if n < 10 then [Digit(n)] else DecimalDigits(n / 10) + [Digit(n % 10)]
  }

  /** Only zero itself is written with a leading `0`. */
  lemma {:induction false} NoLeadingZero(n: nat)
    ensures DecimalDigits(n)[0] != '0' || n == 0
    decreases n
  {
    if n >= 10 {
      NoLeadingZero(n / 10);
      assert DecimalDigits(n)[0] == DecimalDigits(n / 10)[0];
    } else if n > 0 {
      assert DecimalDigits(n) == [Digit(n)];
    }
  }

  /** The number a string of decimal digits spells, most significant
      first; the empty string spells 0. */
  function DigitsValue(s: string): int
  {
    if s == [] then 0 else 10 * DigitsValue(s[..|s| - 1]) + (s[|s| - 1] as int - '0' as int)
  }

  /** Reading back the digits of `n` gives `n`. */
  lemma {:induction false} DecimalDigitsRoundTrip(n: nat)
    ensures DigitsValue(DecimalDigits(n)) == n
    decreases n
  {
    var d := DecimalDigits(n);
    if n < 10 {
      assert d == [Digit(n)];
      assert d[..0] == [];
      assert Digit(n) as int - '0' as int == n;
    } else {
      DecimalDigitsRoundTrip(n / 10);
      assert d[..|d| - 1] == DecimalDigits(n / 10);
      assert Digit(n % 10) as int - '0' as int == n % 10;
    }
  }

  /** Leading zeros do not change the number a digit string spells. */
  lemma {:induction false} LeadingZero(s: string)
    ensures DigitsValue("0" + s) == DigitsValue(s)
    decreases |s|
  {
    var z := "0" + s;
    if s == [] {
      assert z[..0] == [];
    } else {
      var init := s[..|s| - 1];
      LeadingZero(init);
      assert z[..|z| - 1] == "0" + init;
    }
  }

  /** JavaScript's `String(value)`. */
  function ValueString(v: Value): string
  {
    match v
    case Text(s) => s
    case Number(n) => if n < 0 then "-" + DecimalDigits(-n) else DecimalDigits(n)
    case Boolean(b) => if b then "true" else "false"
    case Null => "null"
    case Undefined => "undefined"
  }

  /** A string renders as itself; an integer as its decimal digits, with a
      leading `-` exactly when it is negative, with no leading zero, which
      read back as its magnitude. */
  lemma ValueStringForm(v: Value)
    ensures v.Text? ==> ValueString(v) == v.s
    ensures v.Number? ==> |ValueString(v)| >= 1 && (ValueString(v)[0] == '-' <==> v.n < 0)
    ensures v.Number? ==> forall i :: (if v.n < 0 then 1 else 0) <= i < |ValueString(v)| ==>
      '0' <= ValueString(v)[i] <= '9'
    ensures v.Number? ==> DigitsValue(ValueString(v)[if v.n < 0 then 1 else 0..]) == (if v.n < 0 then -v.n else v.n)
    ensures v.Number? && v.n != 0 ==> ValueString(v)[if v.n < 0 then 1 else 0] != '0'
    ensures ValueString(Number(0)) == "0"
  {
    if v.Number? {
      DecimalDigitsRoundTrip(if v.n < 0 then -v.n else v.n);
      NoLeadingZero(if v.n < 0 then -v.n else v.n);
    }
  }

  /** The fields of one device-data entry.  `kind` is the JavaScript field
      `type` and `storeId` the storage key `_id`; `None` stands for a field
      that is `null` or `undefined`.  `extras` holds every other field a
      vendor decoder emits, which no rule of the core reads or writes. */
  datatype Record = Record(
    kind: Option<string>,
    value: Value,
    deviceTime: Option<string>,
    groupId: Option<string>,
    id: Option<string>,
    storeId: Option<string>,
    extras: map<string, Value>)

  /** The entry object that flows through the streams and is updated in place. */
  class Entry {
    var kind: Option<string>
    var value: Value
    var deviceTime: Option<string>
    var groupId: Option<string>
    var id: Option<string>
    var storeId: Option<string>
    var extras: map<string, Value>

    /** The record the object currently holds. */
    function View(): Record
      reads this
    {
      Record(kind, value, deviceTime, groupId, id, storeId, extras)
    }

    /** A fresh object holding `r`, as a vendor decoder emits it. */
    constructor (r: Record)
      ensures View() == r
    {
      kind, value, deviceTime := r.kind, r.value, r.deviceTime;
      groupId, id, storeId, extras := r.groupId, r.id, r.storeId, r.extras;
    }
  }

  /** SHA-1 of a string followed by its base32hex encoding with `-` as the
      padding character.  The model never looks inside it. */
  type Hash = string -> string

  /** The assumption under which distinct inputs give distinct identifiers;
      no lemma of the model takes it for granted. */
  ghost predicate Injective(h: Hash)
  {
    forall a, b :: h(a) == h(b) ==> a == b
  }

  /** A `crypto.createHash('sha1')` object: `Update` appends to the input,
      `Digest` finishes it.  Node refuses to update or digest a finished
      hasher, which is why the identity code creates a new one after each
      digest. */
  class Hasher {
    const hash: Hash
    var fed: string
    var finished: bool

    constructor (hash: Hash)
      ensures this.hash == hash && fed == [] && !finished
    {
      this.hash := hash;
      fed := [];
      finished := false;
    }

    method Update(part: string)
      requires !finished
      modifies this
      ensures fed == old(fed) + part && !finished
    {
      fed := fed + part;
    }

    method Digest() returns (d: string)
      requires !finished
      modifies this
      ensures finished && fed == old(fed)
      ensures d == hash(fed)
    {
      finished := true;
      d := hash(fed);
    }
  }
}
