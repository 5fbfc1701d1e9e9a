// The enrolled devices of crates/dr-dsh-crypto/src/registry.rs: the set in memory, and what saving and
// loading make of it.
module Registry {
  import opened Results
  import opened LittleEndian

  // 32 bytes; `usable` stands for their being the encoding of a point.
  datatype PublicKey = PublicKey(bytes: seq<byte>, usable: bool)

  // A device id is a digest of the key, taken to be free of collisions.
  datatype DeviceId = DeviceId(digestOf: PublicKey)

  datatype EnrolledDevice = EnrolledDevice(publicKey: PublicKey, name: string)

  datatype StoredDevice = StoredDevice(id: DeviceId, publicKey: PublicKey, name: string)

  // The registry file: absent, unreadable, not a registry, or a list of devices.
  datatype File = Missing | Unreadable | NotARegistry | Stored(devices: seq<StoredDevice>)

  datatype RegistryError = Read | Malformed | Write

  type Devices = map<DeviceId, EnrolledDevice>

  // Every device is filed under the id of its own key.
  ghost predicate Filed(devices: Devices)
  {
    forall id :: id in devices ==> id == DeviceId(devices[id].publicKey) && devices[id].publicKey.usable
  }

  function Enrolled(devices: Devices, key: PublicKey, name: string): Devices
  {
    devices[DeviceId(key) := EnrolledDevice(key, name)]
  }

  // Enrolling changes nothing but the entry of the enrolled key.
  lemma EnrolTouchesOneDevice(devices: Devices, key: PublicKey, name: string, other: DeviceId)
    requires Filed(devices) && key.usable
    ensures Filed(Enrolled(devices, key, name))
    ensures (other in Enrolled(devices, key, name) <==> other in devices || other.digestOf == key)
    ensures other.digestOf != key && other in devices ==> Enrolled(devices, key, name)[other] == devices[other]
    ensures Enrolled(devices, key, name)[DeviceId(key)] == EnrolledDevice(key, name)
  {
    assert other.digestOf == key <==> other == DeviceId(key);
  }

  // What reading a list of devices gives: all of them, or nothing.
  function Reading(stored: seq<StoredDevice>): Result<Devices, RegistryError>
  {
    if stored == [] then Ok(map[])
    else
      var last := stored[|stored| - 1];
      match Reading(stored[..|stored| - 1])
      case Err(error) => Err(error)
      case Ok(devices) => if last.publicKey.usable then Ok(Enrolled(devices, last.publicKey, last.name)) else Err(Malformed)
  }

  // The list holds the devices and nothing else.
  ghost predicate Lists(stored: seq<StoredDevice>, devices: Devices)
  {
    && (forall i :: 0 <= i < |stored| ==>
          var d := stored[i];
          d.id == DeviceId(d.publicKey) && d.id in devices && devices[d.id] == EnrolledDevice(d.publicKey, d.name))
    && (forall id :: id in devices ==> exists i :: 0 <= i < |stored| && stored[i].id == id)
  }

  // One unusable key fails the whole load.
  lemma {:induction false} ReadingFailsIff(stored: seq<StoredDevice>)
    ensures Reading(stored).Err? <==> exists i :: 0 <= i < |stored| && !stored[i].publicKey.usable
  {
    if stored != [] {
      var n := |stored| - 1;
      ReadingFailsIff(stored[..n]);
      if i :| 0 <= i < |stored| && !stored[i].publicKey.usable {
        assert i < n ==> stored[..n][i] == stored[i];
      }
    }
  }

  // Loading what was saved gives the same devices back, in whatever order they were written.
  lemma SaveThenLoad(stored: seq<StoredDevice>, devices: Devices)
    requires Filed(devices) && Lists(stored, devices)
    ensures Reading(stored) == Ok(devices)
  {
    ReadingListed(stored, devices);
    var read := Reading(stored).value;
    forall id | id in devices ensures id in read {
      var i :| 0 <= i < |stored| && stored[i].id == id;
    }
    assert forall id :: id in read <==> id in devices;
    assert read == devices;
  }

  lemma {:induction false} ReadingListed(stored: seq<StoredDevice>, devices: Devices)
    requires Filed(devices)
    requires forall i :: 0 <= i < |stored| ==>
      stored[i].id == DeviceId(stored[i].publicKey) && stored[i].id in devices
      && devices[stored[i].id] == EnrolledDevice(stored[i].publicKey, stored[i].name)
    ensures Reading(stored).Ok?
    ensures forall id :: id in Reading(stored).value ==> id in devices && Reading(stored).value[id] == devices[id]
    ensures forall i :: 0 <= i < |stored| ==> stored[i].id in Reading(stored).value
  {
    if stored != [] {
      ReadingListed(stored[..|stored| - 1], devices);
    }
  }

  // Who may connect: the existence of the file decides, not the number of devices in it.
  datatype DevicePolicy = RoomKeyOnly | EnrolledOnly(devices: Devices)

  function PolicyOf(file: File): Result<DevicePolicy, RegistryError>
  {
    match file
    case Missing => Ok(RoomKeyOnly)
    case Unreadable => Err(Read)
    case NotARegistry => Err(Malformed)
    case Stored(stored) =>
      match Reading(stored)
      case Err(error) => Err(error)
      case Ok(devices) => Ok(EnrolledOnly(devices))
  }

  // The last entry of a key is what the registry says of it.
  predicate LastEntry(stored: seq<StoredDevice>, i: nat, device: EnrolledDevice)
    requires i < |stored|
  {
    && device == EnrolledDevice(stored[i].publicKey, stored[i].name)
    && forall j :: i < j < |stored| ==> stored[j].publicKey != stored[i].publicKey
  }

  // Reading gives exactly the devices in the list, each as its last entry says.
  lemma {:induction false} ReadingMeans(stored: seq<StoredDevice>, id: DeviceId)
    requires Reading(stored).Ok?
    ensures id in Reading(stored).value <==> exists i :: 0 <= i < |stored| && stored[i].publicKey == id.digestOf
    ensures id in Reading(stored).value ==>
      exists i: nat :: i < |stored| && stored[i].publicKey == id.digestOf && LastEntry(stored, i, Reading(stored).value[id])
  {
    if stored != [] {
      var n := |stored| - 1;
      ReadingMeans(stored[..n], id);
      if stored[n].publicKey == id.digestOf {
        assert DeviceId(stored[n].publicKey) == id;
        assert LastEntry(stored, n, Reading(stored).value[id]);
      } else {
        EarlierEntry(stored, id);
      }
    }
  }

  lemma EarlierEntry(stored: seq<StoredDevice>, id: DeviceId)
    requires stored != [] && Reading(stored).Ok? && stored[|stored| - 1].publicKey != id.digestOf
    requires (var front := stored[..|stored| - 1];
              && (id in Reading(front).value <==> exists i :: 0 <= i < |front| && front[i].publicKey == id.digestOf)
              && (id in Reading(front).value ==>
                    exists i: nat :: i < |front| && front[i].publicKey == id.digestOf && LastEntry(front, i, Reading(front).value[id])))
    ensures id in Reading(stored).value <==> exists i :: 0 <= i < |stored| && stored[i].publicKey == id.digestOf
    ensures id in Reading(stored).value ==>
      exists i: nat :: i < |stored| && stored[i].publicKey == id.digestOf && LastEntry(stored, i, Reading(stored).value[id])
  {
    var front := stored[..|stored| - 1];
    assert id in Reading(stored).value <==> id in Reading(front).value;
    if i :| 0 <= i < |stored| && stored[i].publicKey == id.digestOf {
      assert front[i] == stored[i];
    }
    if id in Reading(front).value {
      var i: nat :| i < |front| && front[i].publicKey == id.digestOf && LastEntry(front, i, Reading(front).value[id]);
      assert stored[i].publicKey == id.digestOf && LastEntry(stored, i, Reading(stored).value[id]);
    }
  }

  // The room key alone admits exactly while there is no registry file; a file that cannot be understood is never
  // a policy; and any other admits exactly the devices it lists.
  lemma PolicyMeans(file: File)
    ensures PolicyOf(file) == Ok(RoomKeyOnly) <==> file.Missing?
    ensures PolicyOf(file) == Err(Read) <==> file.Unreadable?
    ensures PolicyOf(file) == Err(Malformed) <==>
      file.NotARegistry? || (file.Stored? && exists i :: 0 <= i < |file.devices| && !file.devices[i].publicKey.usable)
    ensures PolicyOf(file).Ok? && file.Stored? ==>
      PolicyOf(file).value.EnrolledOnly?
      && forall id :: id in PolicyOf(file).value.devices <==> exists i :: 0 <= i < |file.devices| && file.devices[i].publicKey == id.digestOf
  {
    if file.Stored? {
      ReadingFailsIff(file.devices);
      ReadingErrs(file.devices);
      if Reading(file.devices).Ok? {
        forall id ensures id in Reading(file.devices).value <==> exists i :: 0 <= i < |file.devices| && file.devices[i].publicKey == id.digestOf {
          ReadingMeans(file.devices, id);
        }
      }
    }
  }

  lemma {:induction false} ReadingErrs(stored: seq<StoredDevice>)
    ensures Reading(stored).Err? ==> Reading(stored).error == Malformed
  {
    if stored != [] {
      ReadingErrs(stored[..|stored| - 1]);
    }
  }

  // After a saved revocation the device is out and everybody else is in; revoking the last device
  // admits nobody instead of falling back to the room key.
  lemma RevocationSticks(devices: Devices, id: DeviceId, stored: seq<StoredDevice>)
    requires Filed(devices) && Lists(stored, devices - {id})
    ensures PolicyOf(Stored(stored)) == Ok(EnrolledOnly(devices - {id}))
    ensures forall other :: other in PolicyOf(Stored(stored)).value.devices <==> other in devices && other != id
  {
    SaveThenLoad(stored, devices - {id});
  }

  class DeviceRegistry {
    var devices: Devices

    constructor ()
      ensures devices == map[]
    {
      devices := map[];
    }

    method Enrol(publicKey: PublicKey, name: string)
      modifies this
      ensures devices == Enrolled(old(devices), publicKey, name)
    {
      devices := devices[DeviceId(publicKey) := EnrolledDevice(publicKey, name)];
    }

    method Revoke(id: DeviceId) returns (removed: bool)
      modifies this
      ensures removed == (id in old(devices))
      ensures devices == old(devices) - {id}
    {
      removed := id in devices;
      devices := devices - {id};
    }

    // The key a device must prove possession of. An id that is not enrolled has none.
    method ChallengeKey(id: DeviceId) returns (key: Option<PublicKey>)
      ensures key.Some? <==> id in devices
      ensures key.Some? ==> key.value == devices[id].publicKey
    {
      if id !in devices {
        return None;
      }
      return Some(devices[id].publicKey);
    }

    // A missing file is an empty registry; a file that cannot be understood is an error.
    static method Load(file: File) returns (r: Result<DeviceRegistry, RegistryError>)
      ensures r.Ok? ==> fresh(r.value)
      ensures match file
              case Missing => r.Ok? && r.value.devices == map[]
              case Unreadable => r == Err(Read)
              case NotARegistry => r == Err(Malformed)
              case Stored(stored) =>
                (r.Ok? <==> Reading(stored).Ok?)
                && (if r.Ok? then r.value.devices == Reading(stored).value else r.error == Malformed)
    {
      var registry := new DeviceRegistry();
      match file {
        case Missing => return Ok(registry);
        case Unreadable => return Err(Read);
        case NotARegistry => return Err(Malformed);
        case Stored(stored) =>
          var i := 0;
          while i < |stored|
            invariant 0 <= i <= |stored| && fresh(registry)
            invariant Reading(stored[..i]) == Ok(registry.devices)
          {
            if !stored[i].publicKey.usable {
              ReadingFailsIff(stored);
              return Err(Malformed);
            }
            assert stored[..i + 1][..i] == stored[..i];
            registry.Enrol(stored[i].publicKey, stored[i].name);
            i := i + 1;
          }
          assert stored[..i] == stored;
          return Ok(registry);
      }
    }

    // Writing goes through a temporary file, so a failed save leaves the previous file.
    method Save(before: File, writes: bool) returns (after: File, r: Result<(), RegistryError>)
      requires Filed(devices)
      ensures r.Ok? <==> writes
      ensures if writes then after.Stored? && Lists(after.devices, devices) else after == before && r == Err(Write)
    {
      var stored: seq<StoredDevice> := [];
      var left := devices.Keys;
      while left != {}
        invariant left <= devices.Keys
        invariant forall i :: 0 <= i < |stored| ==>
          stored[i].id == DeviceId(stored[i].publicKey) && stored[i].id in devices
          && devices[stored[i].id] == EnrolledDevice(stored[i].publicKey, stored[i].name)
        invariant forall id :: id in devices ==> id in left || exists i :: 0 <= i < |stored| && stored[i].id == id
        decreases |left|
      {
        var id :| id in left;
        var device := devices[id];
        ghost var was := stored;
        stored := stored + [StoredDevice(id, device.publicKey, device.name)];
        assert stored[|was|].id == id;
        forall other | other in devices && other !in left - {id}
          ensures exists i :: 0 <= i < |stored| && stored[i].id == other
        {
          if other != id {
            var i :| 0 <= i < |was| && was[i].id == other;
            assert stored[i].id == other;
          }
        }
        left := left - {id};
      }
      if !writes {
        return before, Err(Write);
      }
      return Stored(stored), Ok(());
    }
  }
}
