/** Cache keys and mutex names: how they are built, and why no two of them meet in the Redis keyspace. */
module Keys {
  import opened Base

  /** The four families of cache entries. */
  datatype Key =
    | PersonalKey(id: uint64)
    | ShippingKey(id: uint64)
    | CheckKey(id: uint64)
    | CredKey(email: string)

  /** The keys of account data, whose answers change; those of the other two families are authentication keys. */
  ghost predicate IsAccountKey(k: Key)
  {
    k.PersonalKey? || k.ShippingKey?
  }

  function Digit(d: nat): char
    requires d < 10
  {
    '0' + d as char
  }

  /** strconv.FormatUint(n, 10). */
  function Decimal(n: nat): (s: string)
    ensures |s| > 0
  {
    if n < 10 then [Digit(n)] else Decimal(n / 10) + [Digit(n % 10)]
  }

  function ReadDecimal(s: string): int
  {
    if s == [] then 0 else 10 * ReadDecimal(s[..|s| - 1]) + (s[|s| - 1] as int - '0' as int)
  }

  lemma {:induction false} DecimalRoundTrip(n: nat)
    ensures ReadDecimal(Decimal(n)) == n
  {
    var s := Decimal(n);
    if n < 10 {
      assert s[..0] == [];
    } else {
      DecimalRoundTrip(n / 10);
      assert s[..|s| - 1] == Decimal(n / 10);
    }
  }

  function Concat(strs: seq<string>): string
  {
    if strs == [] then "" else strs[0] + Concat(strs[1..])
  }

  /** pkg.Join: one pass over the arguments, each appended to the builder. */
  method Join(strs: seq<string>) returns (s: string)
    ensures s == Concat(strs)
  {
    s := "";
    for i := 0 to |strs|
      invariant s + Concat(strs[i..]) == Concat(strs)
    {
      assert strs[i..][1..] == strs[i + 1..];
      s := s + strs[i];
    }
  }

  lemma ConcatPair(a: string, b: string)
    ensures Concat([a, b]) == a + b
  {
    assert [a, b][1..] == [b];
    assert Concat([b]) == b + Concat([]);
  }

  function Prefix(k: Key): string
  {
    match k
    case PersonalKey(_) => "cuspersonalinfo:"
    case ShippingKey(_) => "cusshippinginfo:"
    case CheckKey(_) => "cuscheck:"
    case CredKey(_) => "cuscred:"
  }

  function Suffix(k: Key): string
  {
    if k.CredKey? then k.email else Decimal(k.id)
  }

  /** The key under which an entry is stored, in Redis and in a local cache alike. */
  function KeyString(k: Key): string
  {
    Prefix(k) + Suffix(k)
  }

  /** The name of the mutex that coalesces reads of the entry. */
  function MutexName(k: Key): string
  {
    "mutex:" + KeyString(k)
  }

  /** How the proxies build a key: pkg.Join(prefix, suffix). */
  method BuildKey(k: Key) returns (s: string)
    ensures s == KeyString(k)
    ensures match k
            case PersonalKey(id) => s == "cuspersonalinfo:" + Decimal(id)
            case ShippingKey(id) => s == "cusshippinginfo:" + Decimal(id)
            case CheckKey(id) => s == "cuscheck:" + Decimal(id)
            case CredKey(email) => s == "cuscred:" + email
  {
    ConcatPair(Prefix(k), Suffix(k));
    s := Join([Prefix(k), Suffix(k)]);
  }

  /** And its mutex: pkg.Join("mutex:", key). */
  method BuildMutexName(k: Key, key: string) returns (s: string)
    requires key == KeyString(k)
    ensures s == MutexName(k) && s == "mutex:" + key
  {
    ConcatPair("mutex:", key);
    s := Join(["mutex:", key]);
  }

  /** Strings that differ inside both prefixes differ whatever follows. */
  lemma PrefixClash(p: string, x: string, q: string, y: string, i: nat)
    requires i < |p| && i < |q| && p[i] != q[i]
    ensures p + x != q + y
  {
    assert (p + x)[i] == p[i];
    assert (q + y)[i] == q[i];
  }

  lemma SuffixesAgree(p: string, x: string, y: string)
    requires p + x == p + y
    ensures x == y
  {
    assert x == (p + x)[|p|..];
    assert y == (p + y)[|p|..];
  }

  /** The position at which the prefixes of two different families first differ. */
  function ClashAt(k: Key, l: Key): nat
  {
    if k.PersonalKey? || l.PersonalKey? then 3
    else if k.ShippingKey? || l.ShippingKey? then 3
    else 4
  }

  lemma DifferentFamilies(k: Key, l: Key)
    requires Prefix(k) != Prefix(l)
    ensures ClashAt(k, l) < |Prefix(k)| && ClashAt(k, l) < |Prefix(l)|
    ensures Prefix(k)[ClashAt(k, l)] != Prefix(l)[ClashAt(k, l)]
  {
  }

  lemma KeyStringInjective(k: Key, l: Key)
    requires KeyString(k) == KeyString(l)
    ensures k == l
  {
    if Prefix(k) != Prefix(l) {
      DifferentFamilies(k, l);
      PrefixClash(Prefix(k), Suffix(k), Prefix(l), Suffix(l), ClashAt(k, l));
    } else {
      SuffixesAgree(Prefix(k), Suffix(k), Suffix(l));
      if !k.CredKey? {
        DecimalRoundTrip(k.id);
        DecimalRoundTrip(l.id);
      }
    }
  }

  /**
    Entries and mutexes share one keyspace: over all ids and all email strings, distinct keys have
    distinct names, distinct mutexes have distinct names, and no mutex name is an entry's name.
   */
  lemma KeysAreSeparate(k: Key, l: Key)
    ensures KeyString(k) == KeyString(l) <==> k == l
    ensures MutexName(k) == MutexName(l) <==> k == l
    ensures KeyString(k) != MutexName(l)
  {
    if KeyString(k) == KeyString(l) { KeyStringInjective(k, l); }
    if MutexName(k) == MutexName(l) {
      SuffixesAgree("mutex:", KeyString(k), KeyString(l));
      KeyStringInjective(k, l);
    }
    PrefixClash(Prefix(k), Suffix(k), "mutex:", KeyString(l), 0);
  }

  /** Hence a write or a removal under one key, or of any mutex, frames every other entry. */
  lemma KeyspaceFrame<V>(store: map<string, V>, k: Key, l: Key, v: V)
    requires k != l
    ensures var s := store[KeyString(k) := v][MutexName(k) := v] - {MutexName(l)};
            (KeyString(l) in s <==> KeyString(l) in store) &&
            (KeyString(l) in store ==> s[KeyString(l)] == store[KeyString(l)])
  {
    KeysAreSeparate(k, l);
    KeysAreSeparate(l, k);
    KeysAreSeparate(l, l);
  }
}
