# NetWatch: interface directory and notification vocabulary

NetWatch watches a Windows host's network interfaces and unicast IP
addresses for changes. This project models the two self-contained parts of
it. Both are proved in Dafny.

**The interface directory** (`interfaces.go`) reads the host's interface
table and reports one `NetAddr {Index, Name, IP}` per interface:

- `checkFlag` tests that every bit of a mask is set in an interface's flags.
- `GetInterfaceIPv4Addr` picks the first of an interface's addresses that
  has an IPv4 form. That covers 4-byte addresses and IPv4-mapped IPv6
  addresses (`::ffff:a.b.c.d`, section 2.5.5.2 of RFC 4291), as Go's
  `IP.To4` defines it. It renders that address in dotted decimal.
- `InterfaceCount` counts the interfaces.
- `AllInterfaces` reports every interface. It puts `"0.0.0.0"` in place of
  an address that cannot be resolved.
- `InterfaceList` reports only the interfaces that are not loopback, are
  running, and have a resolvable address.

The host's two queries, `net.Interfaces()` and `Interface.Addrs()`, are
inputs. Each is a `Query`: an answer or a failure. The first is the `host`
parameter of the listing operations. The second is the `addrs` field of each
`Interface`. The loops of `GetInterfaceIPv4Addr`, `AllInterfaces` and
`InterfaceList` are methods with loop invariants. Each is proved against a
specification function (`InterfaceIPv4`, `IPOrUnspecified`,
`ListedEntries`), and the lemmas state what those functions promise.

Rendering is modelled concretely (`Addr.Render`), and is proved injective.
So a genuine `0.0.0.0` address renders exactly like the `"0.0.0.0"`
substitute. The precise statement is `Interfaces.IPOrUnspecified`: an
`AllInterfaces` record shows `"0.0.0.0"` exactly when resolution failed or
the resolved address is `0.0.0.0`.

**The notification vocabulary** (`types.go`) consists of:

- `CallerContext`, which says which registration a callback belongs to.
- `MibNotificationType`, the host's `MIB_NOTIFICATION_TYPE`.
- Their `String` labels.
- The `MonitorNotification` record (types.go:55-60), modelled as the datatype
  `Notifications.MonitorNotification` with the same four fields. The code
  defines no operation on it.

Both enumerations are `uint8` types numbered by `iota`. Each label function
returns a non-empty label exactly for the declared constants and `""` for
every other value.

Files: `wrappers.dfy` (Option), `addr.dfy` (IP byte forms, `To4`,
rendering), `interfaces.dfy` (the directory), `types.dfy` (the vocabulary).

## Model

| member | source | states |
|---|---|---|
| `Addr.To4` | interfaces.go:22 | an address has an IPv4 form exactly when it is 4 bytes long or is 16 bytes starting with the IPv4-mapped prefix; the form is those 4 bytes or the last 4 |
| `Addr.To4OfIPv4Forms` | interfaces.go:22 | a 4-byte address and its IPv4-mapped 16-byte form both give back the same 4 bytes |
| `Addr.DecimalRoundTrip` | interfaces.go:24 | reading back the decimal digits of a number gives the number |
| `Addr.Octet` | interfaces.go:24 | one byte renders as one to three decimal digits, with no leading zero except for the byte 0 itself |
| `Addr.Render` | interfaces.go:24 | the rendering is 7 to 15 characters of digits and dots, starting with the first byte's digits and a dot; `RenderInjective` and `RenderUnspecified` state what it means |
| `Addr.RenderInjective` | interfaces.go:24 | distinct 4-byte addresses render to distinct dotted-decimal strings |
| `Addr.RenderUnspecified` | interfaces.go:55 | an address renders as "0.0.0.0" exactly when it is 0.0.0.0 |
| `Interfaces.CheckFlag` | interfaces.go:30-35 | true exactly when every single bit set in the mask is also set in the interface's flags |
| `Interfaces.ContainmentByBits` | interfaces.go:31 | `flags & f == f` holds exactly when every bit of `f` is a bit of `flags` |
| `Interfaces.CheckFlagEmptyMask` | interfaces.go:30-35 | the empty mask is contained in every interface's flags |
| `Interfaces.FirstIPv4` | interfaces.go:20-26 | the chosen IPv4 form is 4 bytes long |
| `Interfaces.FirstIPv4Picks` | interfaces.go:20-26 | if address k is the first with an IPv4 form, its IPv4 form is the one chosen |
| `Interfaces.FirstIPv4None` | interfaces.go:21-27 | nothing is chosen exactly when no address has an IPv4 form |
| `Interfaces.FirstIPv4IgnoresLater` | interfaces.go:21-26 | once an address with an IPv4 form is present, appending more addresses does not change the choice |
| `Interfaces.InterfaceIPv4` | interfaces.go:15-28 | a failed resolution comes with an empty address string |
| `Interfaces.ResolutionOutcome` | interfaces.go:15-28 | resolution fails exactly when the address query fails (with that error) or no address has an IPv4 form (with the no-IPv4 error naming the interface); otherwise it gives the rendering of the first IPv4 form |
| `Interfaces.GetInterfaceIPv4Addr` | interfaces.go:15-28 | the loop with early return answers exactly `InterfaceIPv4`, both address string and error |
| `Interfaces.InterfaceCount` | interfaces.go:37-43 | no error exactly when the host query answers; then the count is the number of interfaces; on failure it is 0 with the query's error |
| `Interfaces.IPOrUnspecified` | interfaces.go:52-56 | the resolved address when resolution succeeds; "0.0.0.0" exactly when resolution fails or the resolved address is 0.0.0.0 |
| `Interfaces.AllInterfaces` | interfaces.go:45-60 | a failed host query gives an empty list and its error; otherwise no error and one record per interface, as many as `InterfaceCount`, in order, with index and name copied and the address resolved or substituted |
| `Interfaces.Listed` | interfaces.go:70-80 | an interface is kept exactly when its loopback bit 0x4 is clear, its running bit 0x20 is set, its address query answers, and some address has an IPv4 form |
| `Interfaces.ListedEntries` | interfaces.go:68-83 | the listing is never longer than the host's list; `ListedPositionsSpec` and `ListedEntriesAtPositions` state its contents |
| `Interfaces.ListedPositionsSpec` | interfaces.go:69-82 | the kept positions are increasing, each names an interface that is not loopback, is running and resolves, and every such interface is kept |
| `Interfaces.ListedEntriesAtPositions` | interfaces.go:69-83 | record j of the listing has the index, name and resolved address of the interface at the j-th kept position |
| `Interfaces.ListedAmongAll` | interfaces.go:62-84 | each listed record resolved without error and equals the `AllInterfaces` record of its interface, so the listing is a subsequence of `AllInterfaces` and never holds the substitute |
| `Interfaces.InterfaceList` | interfaces.go:62-84 | a failed host query gives an empty list and its error; otherwise no error and exactly the listed records, built by the loop with its three `continue` exits |
| `Notifications.CallerContextNumbering` | types.go:8-11 | the k-th declared caller context has value k: interface change is 0, unicast address change is 1 |
| `Notifications.CallerContextString` | types.go:13-22 | 0 is labelled "IP Interface change", 1 "Unicast IP Address change"; the label is non-empty exactly for the declared contexts |
| `Notifications.CallerContextLabelsDistinct` | types.go:13-22 | distinct declared contexts have distinct labels |
| `Notifications.MibNotificationTypeNumbering` | types.go:27-38 | the k-th declared notification type has value k: parameter 0, add 1, delete 2, initial 3 |
| `Notifications.MibNotificationTypeString` | types.go:40-53 | each declared type has its fixed label; the label is non-empty exactly for the declared types |
| `Notifications.MibNotificationTypeLabelsDistinct` | types.go:40-53 | distinct declared notification types have distinct labels |

## Left out

- net.go is not part of this model. It covers `NewNetMonitor`, `Register`, `Unregister` and the callback. They are raw calls into `iphlpapi.dll` through a lazily loaded library, plus a callback that the host runs on its own threads and that blocks on an unbuffered channel. These are foreign calls and concurrency. `Register` stops at the first failed subscription (net.go:66-76). `Unregister` stops at the first failed cancellation (net.go:78-88). Neither aggregates errors or clears a handle. The callback ignores its arguments and sends an empty value (net.go:90-94). So no `MonitorNotification` is ever built from a raw record, and the model defines the record type only.
- The host queries `net.Interfaces()` and `Interface.Addrs()` are inputs, not operations. The model does not capture that two calls can see different tables.
- The `log.Println` calls (interfaces.go:54, 65, 78) have no effect on results and are left out. So is the exact text of the no-IPv4 error (interfaces.go:27): the error carries only the interface name.
- The `addr.(*net.IPNet)` type assertion (interfaces.go:22) is left out. Every address is taken to be an IP network address, and only its IP is kept; its mask is never read.
- `net.Interface` fields that the code never reads (MTU, hardware address) are left out.
- Interface indexes are unbounded integers. Go's `int` width plays no role in the code.
- The filter is hardwired to "not loopback, running"; `InterfaceList` takes no flag parameters, and neither does the model.
