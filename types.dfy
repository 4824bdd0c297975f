/**
 * The notification vocabulary: which registration a change callback belongs
 * to (`CallerContext`), what kind of change it reports
 * (`MibNotificationType`, the host's MIB_NOTIFICATION_TYPE), their labels,
 * and the record a notification would carry (`MonitorNotification`).
 *
 * Both enumerations are Go `uint8` types numbered with `iota`: the k-th
 * declared constant has the value k.
 */
module Notifications {
  import Addr

  // ----- CallerContext -----

  /** `CallerContext` (a Go `uint8`). */
  newtype CallerContext = x: int | 0 <= x < 256

  const ContextNotifyIpInterfaceChange: CallerContext := 0
  const ContextNotifyUnicastIpAddressChange: CallerContext := 1

  /** The declared constants, in declaration order. */
  const CallerContexts: seq<CallerContext> := [ContextNotifyIpInterfaceChange, ContextNotifyUnicastIpAddressChange]

  /** The constants are numbered by `iota`: interface change is 0, unicast address change is 1. */
  lemma CallerContextNumbering()
    ensures forall k :: 0 <= k < |CallerContexts| ==> CallerContexts[k] as int == k
    ensures ContextNotifyIpInterfaceChange == 0 && ContextNotifyUnicastIpAddressChange == 1
  {
  }

  /**
   * `CallerContext.String`: the label of a declared context, and "" for any
   * other value.
   */
  function CallerContextString(cc: CallerContext): (s: string)
    ensures s != "" <==> cc in CallerContexts
    ensures cc == ContextNotifyIpInterfaceChange ==> s == "IP Interface change"
    ensures cc == ContextNotifyUnicastIpAddressChange ==> s == "Unicast IP Address change"
  {
    if cc == ContextNotifyIpInterfaceChange then "IP Interface change"
    else if cc == ContextNotifyUnicastIpAddressChange then "Unicast IP Address change"
    else ""
  }

  /** Distinct declared contexts have distinct labels. */
  lemma CallerContextLabelsDistinct(a: CallerContext, b: CallerContext)
    requires a in CallerContexts && b in CallerContexts
    requires CallerContextString(a) == CallerContextString(b)
    ensures a == b
  {
  }

  // ----- MibNotificationType -----

  /** `MibNotificationType` (a Go `uint8`). */
  newtype MibNotificationType = x: int | 0 <= x < 256

  /** A parameter was changed. */
  const MibParameterNotification: MibNotificationType := 0
  /** A new MIB instance was added. */
  const MibAddInstance: MibNotificationType := 1
  /** A MIB instance was deleted. */
  const MibDeleteInstance: MibNotificationType := 2
  /** The confirmation sent right after registration; it reports no change. */
  const MibInitialNotification: MibNotificationType := 3

  /** The declared constants, in declaration order. */
  const MibNotificationTypes: seq<MibNotificationType> :=
    [MibParameterNotification, MibAddInstance, MibDeleteInstance, MibInitialNotification]

  /** The constants are numbered by `iota`: 0, 1, 2, 3 for parameter, add, delete, initial. */
  lemma MibNotificationTypeNumbering()
    ensures forall k :: 0 <= k < |MibNotificationTypes| ==> MibNotificationTypes[k] as int == k
  {
  }

  /**
   * `MibNotificationType.String`: the label of a declared notification type,
   * and "" for any other value.
   */
  function MibNotificationTypeString(t: MibNotificationType): (s: string)
    ensures s != "" <==> t in MibNotificationTypes
    ensures t == MibParameterNotification ==> s == "Parameter Notification"
    ensures t == MibAddInstance ==> s == "Add Instance"
    ensures t == MibDeleteInstance ==> s == "Delete Instance"
    ensures t == MibInitialNotification ==> s == "Initial Notification"
  {
    if t == MibParameterNotification then "Parameter Notification"
    else if t == MibAddInstance then "Add Instance"
    else if t == MibDeleteInstance then "Delete Instance"
    else if t == MibInitialNotification then "Initial Notification"
    else ""
  }

  /** Distinct declared notification types have distinct labels. */
  lemma MibNotificationTypeLabelsDistinct(a: MibNotificationType, b: MibNotificationType)
    requires a in MibNotificationTypes && b in MibNotificationTypes
    requires MibNotificationTypeString(a) == MibNotificationTypeString(b)
    ensures a == b
  {
  }

  // ----- MonitorNotification -----

  /**
   * `MonitorNotification`: the registration a change came from, its kind,
   * the interface it concerns and the address it concerns (empty when none).
   */
  datatype MonitorNotification = MonitorNotification(
    callerContext: CallerContext,
    notificationType: MibNotificationType,
    interfaceIndex: int,
    interfaceAddress: Addr.IP)
}
