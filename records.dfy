/**
 * Host records as the router's host table delivers them, and the string
 * helper that both the router client and the scanner use.
 */
module Records {

  /** A field of a host record: the router sends strings; `is_deprecate` is
      the one boolean, added by normalisation. */
  datatype Value = Text(s: string) | Flag(b: bool)

  /** One host record, a JSON object. */
  type Record = map<string, Value>

  /** Host records keyed by hardware address. */
  type HostMap = map<string, Record>

  const MacKey: string := "mac"
  const HostnameKey: string := "hostname"
  const StateKey: string := "state"
  const ConnectDateKey: string := "connect_date"
  const ConnectTimeKey: string := "connect_time"
  const SsidKey: string := "ssid"
  const IsDeprecateKey: string := "is_deprecate"

  /** The field `key` is absent or holds a string. */
  predicate IsText(r: Record, key: string) {
    key in r ==> r[key].Text?
  }

  /** `r.get(key, "")` for a field that holds a string. */
  function GetText(r: Record, key: string): string
    requires IsText(r, key)
  {
    if key in r then r[key].s else ""
  }

  /** The fields the router client reads as strings are strings. */
  predicate TextFields(r: Record) {
    IsText(r, MacKey) && IsText(r, HostnameKey) && IsText(r, StateKey) &&
    IsText(r, ConnectDateKey) && IsText(r, ConnectTimeKey) && IsText(r, SsidKey)
  }

  /** `s.replace("-", "")`: `s` with every dash dropped, order kept. */
  function RemoveDashes(s: string): (r: string)
    ensures forall c :: c in r <==> c in s && c != '-'
    ensures '-' !in s ==> r == s
    ensures |r| <= |s|
  {
    if s == [] then []
    else (if s[0] == '-' then [] else [s[0]]) + RemoveDashes(s[1..])
  }

  /** Every character but `-` is kept as often as it occurs, and no dash is. */
  lemma {:induction false} RemoveDashesCount(s: string)
    ensures multiset(RemoveDashes(s)) == multiset(s)['-' := 0]
  {
    if s != [] {
      assert s == [s[0]] + s[1..];
      RemoveDashesCount(s[1..]);
    }
  }

  /** Dropping dashes works piece by piece, so the characters that remain
      keep their order. */
  lemma {:induction false} RemoveDashesAppend(a: string, b: string)
    ensures RemoveDashes(a + b) == RemoveDashes(a) + RemoveDashes(b)
  {
    if a != [] {
      assert (a + b)[1..] == a[1..] + b;
      RemoveDashesAppend(a[1..], b);
    } else {
      assert a + b == b;
    }
  }

  /** One character: a dash vanishes and anything else stays. */
  lemma RemoveDashesChar(c: char)
    ensures RemoveDashes([c]) == if c == '-' then [] else [c]
  {
    assert [c][1..] == [];
  }
}
