/**
 * `AppCoordinatorImpl`: the root navigation controller's stack of screens. Screens come from a
 * dependency container that may fail to resolve them; each resolution is a parameter here.
 */
module AppCoordination {
  import opened Wrappers

  datatype ScreenKind =
    | LaunchScreen | HomeScreen | QrScannerScreen | ChangeDeviceInformationScreen
    | AuthCloudApiRegistrationScreen | UsernamePasswordLoginScreen | SelectAccountScreen
    | SelectAuthenticatorScreen | CredentialScreen | TransactionConfirmationScreen
    | ConfirmationScreen | ResultScreen

  /** A view controller: its kind, which instance it is, and the view model it shows. */
  datatype Screen = Screen(kind: ScreenKind, instance: nat, viewModel: Option<nat>)

  /** The alert shown instead of the QR scanner on the simulator. */
  datatype Alert = QrCodeScanUnavailable

  /** The navigations that resolve a screen and push it. */
  datatype PushNavigation =
    | ToQrScanner | ToChangeDeviceInformation | ToAuthCloudApiRegistration | ToUsernamePasswordLogin
    | ToAccountSelection | ToAuthenticatorSelection | ToTransactionConfirmation | ToConfirmation | ToResult

  function Destination(navigation: PushNavigation): (kind: ScreenKind)
    ensures kind != HomeScreen && kind != LaunchScreen && kind != CredentialScreen
  {
    match navigation
    case ToQrScanner => QrScannerScreen
    case ToChangeDeviceInformation => ChangeDeviceInformationScreen
    case ToAuthCloudApiRegistration => AuthCloudApiRegistrationScreen
    case ToUsernamePasswordLogin => UsernamePasswordLoginScreen
    case ToAccountSelection => SelectAccountScreen
    case ToAuthenticatorSelection => SelectAuthenticatorScreen
    case ToTransactionConfirmation => TransactionConfirmationScreen
    case ToConfirmation => ConfirmationScreen
    case ToResult => ResultScreen
  }

  /** `screenInStackFor(screenType:)`: the first screen of a kind in the stack, if any. */
  function ScreenInStackFor(stack: seq<Screen>, kind: ScreenKind): (r: Option<Screen>)
    ensures r.Some? <==> exists i :: 0 <= i < |stack| && stack[i].kind == kind
    ensures r.Some? ==> r.value in stack && r.value.kind == kind
  {
    if stack == [] then None
    else if stack[0].kind == kind then Some(stack[0])
    else
      var r := ScreenInStackFor(stack[1..], kind);
      assert forall i :: 1 <= i < |stack| ==> stack[i] == stack[1..][i - 1];
      r
  }

  /** No two Credential screens sit next to each other. */
  predicate NoAdjacentCredentials(stack: seq<Screen>)
  {
    forall i :: 0 <= i < |stack| - 1 ==> !(stack[i].kind == CredentialScreen && stack[i + 1].kind == CredentialScreen)
  }

  class AppCoordinator {
    /** `rootNavigationController?.viewControllers`; `None` when the launch screen did not resolve. */
    var navigation: Option<seq<Screen>>
    /** The alert presented over the navigation controller, if any. */
    var presented: Option<Alert>
    /** The instances `navigateToCredential` has refreshed, in order. */
    ghost var refreshed: seq<nat>

    /** A navigation controller always holds at least one screen. */
    ghost predicate Valid()
      reads this
    {
      navigation.Some? ==> navigation.value != []
    }

    /** `init(logger:)`: the launch screen becomes the root, or there is no navigation controller. */
    constructor(launch: Option<Screen>)
      requires launch.Some? ==> launch.value.kind == LaunchScreen
      ensures navigation == if launch.Some? then Some([launch.value]) else None
      ensures presented.None? && refreshed == []
      ensures Valid()
    {
      navigation := if launch.Some? then Some([launch.value]) else None;
      presented := None;
      refreshed := [];
    }

    /** `topScreen`: the last screen of the stack. */
    function TopScreen(): (r: Option<Screen>)
      requires Valid()
      reads this
      ensures r.Some? <==> navigation.Some?
      ensures r.Some? ==> r.value == navigation.value[|navigation.value| - 1] && r.value in navigation.value
    {
      if navigation.None? then None else Some(navigation.value[|navigation.value| - 1])
    }

    /**
     * `navigateToHome()`: dismisses any alert, then makes a Home screen the only screen. A Home
     * screen already in the stack is reused; otherwise a resolved one is used; if none resolves, the
     * stack stays as it is.
     */
    method NavigateToHome(resolved: Option<Screen>)
      requires Valid()
      requires resolved.Some? ==> resolved.value.kind == HomeScreen
      modifies this`navigation, this`presented
      ensures old(navigation).None? ==> navigation.None? && presented == old(presented)
      ensures old(navigation).Some? ==> presented.None?
      ensures old(navigation).Some? ==>
        match ScreenInStackFor(old(navigation).value, HomeScreen)
        case Some(home) => navigation == Some([home])
        case None => navigation == if resolved.Some? then Some([resolved.value]) else old(navigation)
      ensures navigation.Some? && navigation != old(navigation) ==>
        |navigation.value| == 1 && navigation.value[0].kind == HomeScreen
      ensures Valid()
    {
      if navigation.None? {
        return;
      }
      presented := None;
      var inStack := ScreenInStackFor(navigation.value, HomeScreen);
      if inStack.Some? {
        navigation := Some([inStack.value]);
        return;
      }
      if resolved.None? {
        return;
      }
      navigation := Some([resolved.value]);
    }

    /** `start()`: exactly `navigateToHome()`. */
    method Start(resolved: Option<Screen>)
      requires Valid()
      requires resolved.Some? ==> resolved.value.kind == HomeScreen
      modifies this`navigation, this`presented
      ensures old(navigation).None? ==> navigation.None? && presented == old(presented)
      ensures old(navigation).Some? ==> presented.None?
      ensures old(navigation).Some? ==>
        match ScreenInStackFor(old(navigation).value, HomeScreen)
        case Some(home) => navigation == Some([home])
        case None => navigation == if resolved.Some? then Some([resolved.value]) else old(navigation)
      ensures Valid()
    {
      NavigateToHome(resolved);
    }

    /** The push navigations: a resolved screen is pushed; a failed resolution changes nothing. */
    method Navigate(to: PushNavigation, resolved: Option<Screen>)
      requires Valid()
      requires resolved.Some? ==> resolved.value.kind == Destination(to)
      modifies this`navigation
      ensures navigation == if old(navigation).Some? && resolved.Some? then Some(old(navigation).value + [resolved.value]) else old(navigation)
      ensures old(navigation).Some? && resolved.Some? ==> |navigation.value| == |old(navigation).value| + 1
      ensures old(navigation).Some? && NoAdjacentCredentials(old(navigation).value) ==> NoAdjacentCredentials(navigation.value)
      ensures Valid()
    {
      if resolved.None? || navigation.None? {
        return;
      }
      navigation := Some(navigation.value + [resolved.value]);
    }

    /** `present(_:)`: the alert is presented over the navigation controller, if there is one. */
    method Present(alert: Alert)
      modifies this`presented
      ensures presented == if navigation.Some? then Some(alert) else old(presented)
    {
      if navigation.Some? {
        presented := Some(alert);
      }
    }

    /** `navigateToQrScanner()`: on the simulator an alert is presented and the stack is unchanged. */
    method NavigateToQrScanner(simulator: bool, resolved: Option<Screen>)
      requires Valid()
      requires resolved.Some? ==> resolved.value.kind == QrScannerScreen
      modifies this`navigation, this`presented
      ensures simulator ==> navigation == old(navigation) && presented == if navigation.Some? then Some(QrCodeScanUnavailable) else old(presented)
      ensures !simulator ==> presented == old(presented)
      ensures !simulator ==>
        navigation == if old(navigation).Some? && resolved.Some? then Some(old(navigation).value + [resolved.value]) else old(navigation)
      ensures Valid()
    {
      if simulator {
        Present(QrCodeScanUnavailable);
      } else {
        Navigate(ToQrScanner, resolved);
      }
    }

    /**
     * `navigateToCredential(with:)`. If the screen does not resolve nothing happens, even when a
     * Credential screen is on top. A Credential screen on top gets the resolved view model and is
     * refreshed instead of a second one being pushed; otherwise the resolved screen is pushed.
     */
    method NavigateToCredential(resolved: Option<Screen>, resolvedViewModel: Option<nat>)
      requires Valid()
      requires resolved.Some? ==> resolved.value.kind == CredentialScreen
      modifies this`navigation, this`refreshed
      ensures resolved.None? || old(navigation).None? ==> navigation == old(navigation) && refreshed == old(refreshed)
      ensures resolved.Some? && old(navigation).Some? ==>
        var stack := old(navigation).value;
        var top := stack[|stack| - 1];
        if top.kind == CredentialScreen then
          navigation == Some(stack[..|stack| - 1] + [top.(viewModel := resolvedViewModel)]) && refreshed == old(refreshed) + [top.instance]
        else
          navigation == Some(stack + [resolved.value]) && refreshed == old(refreshed)
      ensures old(navigation).Some? && NoAdjacentCredentials(old(navigation).value) ==> NoAdjacentCredentials(navigation.value)
      ensures Valid()
    {
      if resolved.None? || navigation.None? {
        return;
      }
      var stack := navigation.value;
      var top := stack[|stack| - 1];
      if top.kind == CredentialScreen {
        var updated := stack[..|stack| - 1] + [top.(viewModel := resolvedViewModel)];
        assert forall i :: 0 <= i < |stack| ==> updated[i].kind == stack[i].kind;
        navigation := Some(updated);
        refreshed := refreshed + [top.instance];
        return;
      }
      navigation := Some(stack + [resolved.value]);
    }
  }
}
