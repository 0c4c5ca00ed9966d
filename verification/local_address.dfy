/**
 * `getLocalIP` of server.js: the address shown in the startup message. The
 * host's interface table is a parameter here, already in `Object.keys` order
 * (index-like names first, ascending, then the rest in insertion order).
 */
module LocalAddress {

  /** The address shown when no interface has an external IPv4 address. */
  const Fallback: string := "localhost"

  /** One address record of an interface, with the fields `getLocalIP` reads. */
  datatype AddressInfo = AddressInfo(family: string, internal: bool, address: string)

  /** A named interface with its address records, in the order the runtime lists them. */
  datatype Interface = Interface(name: string, addresses: seq<AddressInfo>)

  /** The test `iface.family === 'IPv4' && !iface.internal`. */
  predicate IsExternalIPv4(a: AddressInfo)
  {
    a.family == "IPv4" && !a.internal
  }

  /** Record `k` of interface `n` exists in the table. */
  predicate IsRecord(table: seq<Interface>, n: int, k: int)
  {
    0 <= n < |table| && 0 <= k < |table[n].addresses|
  }

  /** Record `(n', k')` comes before record `(n, k)`: interfaces first, then records within one. */
  predicate Precedes(n': int, k': int, n: int, k: int)
  {
    n' < n || (n' == n && k' < k)
  }

  /** Some record of the table is an external IPv4 address. */
  ghost predicate HasExternalIPv4(table: seq<Interface>)
  {
    exists n, k :: IsRecord(table, n, k) && IsExternalIPv4(table[n].addresses[k])
  }

  /**
   * The nested `for` loops with their early `return`: the address of the
   * first external IPv4 record, interface by interface and record by record,
   * or "localhost" when there is none.
   */
  method GetLocalIP(table: seq<Interface>) returns (ip: string)
    ensures !HasExternalIPv4(table) ==> ip == Fallback
    ensures HasExternalIPv4(table) ==>
      exists n, k :: IsRecord(table, n, k) && IsExternalIPv4(table[n].addresses[k])
        && ip == table[n].addresses[k].address
        && forall n', k' :: IsRecord(table, n', k') && Precedes(n', k', n, k)
             ==> !IsExternalIPv4(table[n'].addresses[k'])
  {
    for n := 0 to |table|
      invariant forall n', k' :: IsRecord(table, n', k') && n' < n
                  ==> !IsExternalIPv4(table[n'].addresses[k'])
    {
      var records := table[n].addresses;
      for k := 0 to |records|
        invariant forall n', k' :: IsRecord(table, n', k') && Precedes(n', k', n, k)
                    ==> !IsExternalIPv4(table[n'].addresses[k'])
      {
        if IsExternalIPv4(records[k]) {
          return records[k].address;
        }
      }
    }
    return Fallback;
  }
}
