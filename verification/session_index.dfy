/**
  The cross-node session index kept in the shared store: per node, the hash
  `tcp_uid_f:<node>` maps an address to a device id and `tcp_uid:<node>`
  maps a device id back to its address.
 */
module SessionIndex {

  /** The store's hashes: key to field-value map. */
  type HashStore = map<string, map<string, string>>

  /** `tcp_uid_f:<node>`: address to device id. */
  function AddressToDeviceKey(node: string): string {
    "tcp_uid_f:" + node
  }

  /** `tcp_uid:<node>`: device id to address. */
  function DeviceToAddressKey(node: string): string {
    "tcp_uid:" + node
  }

  /** The two hash names never collide, for any pair of nodes. */
  lemma IndexKeysDistinct(node: string, other: string)
    ensures AddressToDeviceKey(node) != DeviceToAddressKey(other)
    ensures AddressToDeviceKey(node) == AddressToDeviceKey(other) <==> node == other
    ensures DeviceToAddressKey(node) == DeviceToAddressKey(other) <==> node == other
  {
    assert AddressToDeviceKey(node)[7] == '_' && DeviceToAddressKey(other)[7] == ':';
    if AddressToDeviceKey(node) == AddressToDeviceKey(other) {
      assert node == AddressToDeviceKey(node)[10..];
    }
    if DeviceToAddressKey(node) == DeviceToAddressKey(other) {
      assert node == DeviceToAddressKey(node)[8..];
    }
  }

  /** A hash that does not exist reads as empty. */
  function HashAt(store: HashStore, key: string): map<string, string> {
    if key in store then store[key] else map[]
  }

  /** Deleting a whole hash. */
  function DeleteHash(store: HashStore, key: string): (r: HashStore)
    ensures HashAt(r, key) == map[]
    ensures forall k :: k != key ==> HashAt(r, k) == HashAt(store, k)
  {
    store - {key}
  }

  /** Deleting one field of a hash; deleting an absent field is a no-op. */
  function DeleteField(store: HashStore, key: string, field: string): (r: HashStore)
    ensures HashAt(r, key) == HashAt(store, key) - {field}
    ensures forall k :: k != key ==> HashAt(r, k) == HashAt(store, k)
  {
    if key in store then store[key := store[key] - {field}] else store
  }

  /** Deleting several fields of one hash. */
  function DeleteFields(store: HashStore, key: string, fields: set<string>): (r: HashStore)
    ensures HashAt(r, key) == HashAt(store, key) - fields
    ensures forall k :: k != key ==> HashAt(r, k) == HashAt(store, k)
  {
    if key in store then store[key := store[key] - fields] else store
  }

  /** The two maps describe the same address/device pairs. */
  predicate MutuallyInverse(byAddress: map<string, string>, byDevice: map<string, string>) {
    && (forall a :: a in byAddress ==> byAddress[a] in byDevice && byDevice[byAddress[a]] == a)
    && (forall d :: d in byDevice ==> byDevice[d] in byAddress && byAddress[byDevice[d]] == d)
  }

  predicate IndexConsistent(store: HashStore, node: string) {
    MutuallyInverse(HashAt(store, AddressToDeviceKey(node)), HashAt(store, DeviceToAddressKey(node)))
  }

  /** Startup: both of the node's hashes are emptied; every other hash is kept. */
  function ClearNodeIndex(store: HashStore, node: string): (r: HashStore)
    ensures HashAt(r, AddressToDeviceKey(node)) == map[] && HashAt(r, DeviceToAddressKey(node)) == map[]
    ensures IndexConsistent(r, node)
    ensures forall k :: k != AddressToDeviceKey(node) && k != DeviceToAddressKey(node) ==> HashAt(r, k) == HashAt(store, k)
  {
    IndexKeysDistinct(node, node);
    DeleteHash(DeleteHash(store, AddressToDeviceKey(node)), DeviceToAddressKey(node))
  }

  /**
    `cleanup_connection`: when the address has a device, that device's entry
    and the address's entry are deleted; otherwise nothing changes.
   */
  function CleanupConnection(store: HashStore, node: string, address: string): (r: HashStore)
    ensures var byAddress := HashAt(store, AddressToDeviceKey(node));
            var byDevice := HashAt(store, DeviceToAddressKey(node));
            && (address in byAddress ==>
                  && HashAt(r, AddressToDeviceKey(node)) == byAddress - {address}
                  && HashAt(r, DeviceToAddressKey(node)) == byDevice - {byAddress[address]})
            && (address !in byAddress ==> r == store)
    ensures forall k :: k != AddressToDeviceKey(node) && k != DeviceToAddressKey(node) ==> HashAt(r, k) == HashAt(store, k)
  {
    IndexKeysDistinct(node, node);
    var byAddress := HashAt(store, AddressToDeviceKey(node));
    if address in byAddress then
      DeleteField(DeleteField(store, DeviceToAddressKey(node), byAddress[address]), AddressToDeviceKey(node), address)
    else store
  }

  /** Cleanup keeps the two maps mutually inverse. */
  lemma CleanupPreservesInverse(store: HashStore, node: string, address: string)
    requires IndexConsistent(store, node)
    ensures IndexConsistent(CleanupConnection(store, node, address), node)
  {
  }

  /**
    Under a consistent index, cleanup removes the pair from both maps or
    from neither: afterwards the address has no device and no device
    points to the address.
   */
  lemma CleanupRemovesBothSides(store: HashStore, node: string, address: string)
    requires IndexConsistent(store, node)
    ensures var r := CleanupConnection(store, node, address);
            && address !in HashAt(r, AddressToDeviceKey(node))
            && forall d :: d in HashAt(r, DeviceToAddressKey(node)) ==> HashAt(r, DeviceToAddressKey(node))[d] != address
  {
  }

  /** Cleanup on one node leaves every other node's index as it was. */
  lemma CleanupLeavesOtherNodes(store: HashStore, node: string, other: string, address: string)
    requires other != node
    ensures var r := CleanupConnection(store, node, address);
            && HashAt(r, AddressToDeviceKey(other)) == HashAt(store, AddressToDeviceKey(other))
            && HashAt(r, DeviceToAddressKey(other)) == HashAt(store, DeviceToAddressKey(other))
  {
    IndexKeysDistinct(node, other);
    IndexKeysDistinct(other, node);
  }
}
