/**
 * The `FPDev` session (fpdev.h, fpdev.cpp): a wrapper around one Opal Kelly
 * FrontPanel handle (`okCFrontPanel*`). The handle is either null or held;
 * while it is held the session caches the device's serial, device ID,
 * firmware version text and USB 3 flag, and every operation reports errors
 * through negative return codes and a last-error message.
 *
 * The vendor SDK is not part of this model. It is an abstract gateway: each
 * SDK call the session issues is appended to the log `calls`, and the value
 * the call returns is a parameter of the method that issues it. Allocating
 * and deleting the handle appear in the log as `Create` and `Destroy`.
 * Calls reach the log only through `NewHandle`, `DeleteHandle` and `Issue`,
 * whose preconditions make the verifier check that no handle is allocated
 * over a held one and that no other call goes to a null handle.
 */
module FPDevice {
  import opened Common
  import opened BlockPipe
  import Buffers
  import StrUtils

  // ---------------------------------------------------------------------
  // Error codes (fpdev.h:28-33) and the SDK constants the adapter tests
  // ---------------------------------------------------------------------

  const FPERR_LIBRARY_NOT_FOUND: int := -100
  const FPERR_ALREADY_OPENED: int := -101
  const FPERR_CANNOT_OPEN: int := -102
  const FPERR_FPG_CFG_FAILED: int := -103
  const FPERR_FP_NOT_ENABLED: int := -104
  const FPERR_NOT_CONNECTED: int := -105

  // The last-error messages (fpdev.cpp), spelled as in the source.
  const MSG_NOT_CONNECTED: string := "Device not connected."
  /** What `getDeviceID` and `setDeviceID` record: the same words without the period. */
  const MSG_NOT_CONNECTED_ID: string := "Device not connected"
  const MSG_ALREADY_OPENED: string := "Cannot open: Device alraedy opened."
  const MSG_CANNOT_OPEN: string := "Device could not be opened."
  const MSG_FPG_CFG_FAILED: string := "FPG configuration failed."
  const MSG_FP_NOT_ENABLED: string := "FrontPanel support is not enabled."

  /** `okCFrontPanel::NoError`. */
  const NO_ERROR: int := 0
  /** `okCFrontPanel::Failed`. */
  const FAILED: int := -1
  /** `OK_USBSPEED_SUPER`. */
  const USBSPEED_SUPER: int := 3

  /** The adapter's codes, in declaration order. */
  function ErrorCodes(): (codes: seq<int>)
    ensures |codes| == 6
    ensures forall i :: 0 <= i < |codes| ==> codes[i] == -100 - i
  {
    [FPERR_LIBRARY_NOT_FOUND, FPERR_ALREADY_OPENED, FPERR_CANNOT_OPEN,
     FPERR_FPG_CFG_FAILED, FPERR_FP_NOT_ENABLED, FPERR_NOT_CONNECTED]
  }

  /** The six codes are negative, pairwise distinct, and none is an SDK result the adapter passes through as success or as `Failed`. */
  lemma ErrorCodesDistinct()
    ensures forall i :: 0 <= i < |ErrorCodes()| ==> ErrorCodes()[i] < FAILED
    ensures forall i, j :: 0 <= i < j < |ErrorCodes()| ==> ErrorCodes()[i] != ErrorCodes()[j]
  {
  }

  // ---------------------------------------------------------------------
  // What the SDK reports and what the session asks of it
  // ---------------------------------------------------------------------

  /** The fields of `okTDeviceInfo` the adapter reads. */
  datatype DeviceInfo = DeviceInfo(
    deviceID: string,
    serialNumber: string,
    deviceMajorVersion: int,
    deviceMinorVersion: int,
    usbSpeed: int)

  /** `FPDevInfo` (fpdev.h:39-42). */
  datatype FPDevInfo = FPDevInfo(devSerial: string, deviceID: string)

  /** What the SDK answers for one entry of its device list while `listDevicesInfo` walks it. */
  datatype ListedDevice = ListedDevice(serial: string, openRc: int, info: DeviceInfo)

  /** One call into the SDK on the session's handle. */
  datatype SdkCall =
    | Create                       // new okCFrontPanel()
    | Destroy                      // delete mFp
    | OpenBySerial(serial: string)
    | GetDeviceInfo
    | LoadDefaultPLLConfiguration
    | ConfigureFPGA(file: string)
    | IsFrontPanelEnabled
    | Close
    | IsOpen
    | ResetFPGA
    | GetDeviceID
    | SetDeviceID(id: string)
    | SetTimeout(timeout: U32)
    | SetWireInValue(address: U32, value: U32)
    | UpdateWireIns
    | UpdateWireOuts
    | GetWireOutValue(address: U32)
    | WriteRegister(address: U32, value: U32)
    | ReadRegister(address: U32)
    | WriteToBlockPipeIn(address: U32, blockSize: U32, length: int, payload: seq<Byte>)
    | ReadFromBlockPipeOut(address: U32, signedBlockSize: int, length: int)

  /** "Firmware %d.%d" with the device's major and minor version. */
  function FirmwareText(info: DeviceInfo): string
  {
    "Firmware " + StrUtils.DecimalString(info.deviceMajorVersion) + "." +
    StrUtils.DecimalString(info.deviceMinorVersion)
  }

  /** What an unaligned pipe write hands to the SDK: the data, then zeros up to `length`. */
  function PaddedPayload(bytes: seq<Byte>, length: nat): (p: seq<Byte>)
    requires |bytes| <= length
    ensures |p| == length
  {
    bytes + Zeros(length - |bytes|)
  }

  /** The padded payload starts with the caller's bytes and is zero after them. */
  lemma PaddedPayloadSpec(bytes: seq<Byte>, length: nat)
    requires |bytes| <= length
    ensures PaddedPayload(bytes, length)[..|bytes|] == bytes
    ensures forall i :: |bytes| <= i < length ==> PaddedPayload(bytes, length)[i] == 0
  {
  }

  // ---------------------------------------------------------------------
  // The session
  // ---------------------------------------------------------------------

  class FPDev {
    /** `mFp != NULL`. */
    var held: bool
    /** `mFpFirmwareVersion`. */
    var firmwareVersion: string
    /** `mSerial`. */
    var serial: string
    /** `mDeviceID`. */
    var deviceId: string
    /** `mIsUSB3Speed`. */
    var usb3: bool
    /** `mCloseOnFailure`. */
    var closeOnFailure: bool
    /** `mLastError` (mutable: const members may set it too). */
    var lastError: string
    /** The SDK calls issued so far. */
    var calls: seq<SdkCall>

    /** The cached device metadata and the failure policy are as before. */
    twostate predicate MetaKept()
      reads this
    {
      firmwareVersion == old(firmwareVersion) && serial == old(serial) &&
      deviceId == old(deviceId) && usb3 == old(usb3) && closeOnFailure == old(closeOnFailure)
    }

    /** `CHECK_CONNECTED` (fpdev.cpp:32-36) rejected the call: -105, the message, nothing else changed. */
    twostate predicate RejectedDisconnected(rc: int)
      reads this
    {
      rc == FPERR_NOT_CONNECTED && lastError == MSG_NOT_CONNECTED &&
      !held && calls == old(calls) && MetaKept()
    }

    /**
     * After the SDK returned `rc` to the calls `issued`: with the failure
     * policy on and `rc == Failed` the session closed its handle; otherwise
     * it still holds it.
     */
    twostate predicate FailurePolicy(rc: int, issued: seq<SdkCall>)
      reads this
    {
      lastError == old(lastError) && MetaKept() &&
      if rc == FAILED && closeOnFailure then
        !held && calls == old(calls) + issued + [SdkCall.Close, Destroy]
      else
        held && calls == old(calls) + issued
    }

    /** `FPDev()`: no handle, no USB 3, no closing on failure, and empty (default-constructed) strings. */
    constructor ()
      ensures !held && calls == []
      ensures !usb3 && !closeOnFailure
      ensures lastError == "" && serial == "" && deviceId == "" && firmwareVersion == ""
    {
      held := false;
      firmwareVersion := "";
      serial := "";
      deviceId := "";
      usb3 := false;
      closeOnFailure := false;
      lastError := "";
      calls := [];
    }

    /** `mFp = new okCFrontPanel()`. */
    method NewHandle()
      requires !held
      modifies this
      ensures held && calls == old(calls) + [Create]
      ensures lastError == old(lastError) && MetaKept()
    {
      calls := calls + [Create];
      held := true;
    }

    /** `delete mFp; mFp = NULL`. */
    method DeleteHandle()
      requires held
      modifies this
      ensures !held && calls == old(calls) + [Destroy]
      ensures lastError == old(lastError) && MetaKept()
    {
      calls := calls + [Destroy];
      held := false;
    }

    /** A call on the held handle. */
    method Issue(c: SdkCall)
      requires held && !c.Create? && !c.Destroy?
      modifies this
      ensures held && calls == old(calls) + [c]
      ensures lastError == old(lastError) && MetaKept()
    {
      calls := calls + [c];
    }

    /**
     * `open(serial, firmwareFile)` (fpdev.cpp:113-156). `firmwareFile` is
     * `None` when it is null; `openRc`, `info`, `configureRc` and
     * `frontPanelEnabled` are what `OpenBySerial`, `GetDeviceInfo`,
     * `ConfigureFPGA` and `IsFrontPanelEnabled` return.
     */
    method Open(serialNumber: string, firmwareFile: Option<string>,
                openRc: int, info: DeviceInfo, configureRc: int, frontPanelEnabled: bool)
      returns (rc: int)
      modifies this
      ensures rc == 0 <==> !old(held) && held
      ensures old(held) ==>
        rc == FPERR_ALREADY_OPENED && lastError == MSG_ALREADY_OPENED &&
        held && calls == old(calls) && MetaKept()
      ensures !old(held) && openRc != NO_ERROR ==>
        rc == FPERR_CANNOT_OPEN && lastError == MSG_CANNOT_OPEN &&
        !held && calls == old(calls) + [Create, OpenBySerial(serialNumber), Destroy] && MetaKept()
      ensures !old(held) && openRc == NO_ERROR ==>
        firmwareVersion == FirmwareText(info) && deviceId == info.deviceID &&
        serial == info.serialNumber && usb3 == (info.usbSpeed == USBSPEED_SUPER) &&
        closeOnFailure == old(closeOnFailure)
      ensures !old(held) && openRc == NO_ERROR ==>
        var configured := old(calls) + [Create] + [OpenBySerial(serialNumber)] + [GetDeviceInfo] + [LoadDefaultPLLConfiguration] +
                          (if firmwareFile.Some? then [ConfigureFPGA(firmwareFile.value)] else []);
        if firmwareFile.Some? && configureRc != NO_ERROR then
          rc == FPERR_FPG_CFG_FAILED && lastError == MSG_FPG_CFG_FAILED &&
          !held && calls == configured + [SdkCall.Close, Destroy]
        else if !frontPanelEnabled then
          rc == FPERR_FP_NOT_ENABLED && lastError == MSG_FP_NOT_ENABLED &&
          !held && calls == configured + [IsFrontPanelEnabled, SdkCall.Close, Destroy]
        else
          rc == 0 && lastError == old(lastError) && held && calls == configured + [IsFrontPanelEnabled]
    {
      if held {
        lastError := MSG_ALREADY_OPENED;
        return FPERR_ALREADY_OPENED;
      }
      NewHandle();
      Issue(OpenBySerial(serialNumber));
      if openRc != NO_ERROR {
        DeleteHandle();
        lastError := MSG_CANNOT_OPEN;
        return FPERR_CANNOT_OPEN;
      }
      rc := SetUp(firmwareFile, info, configureRc, frontPanelEnabled);
    }

    /** The part of `open` after `OpenBySerial` succeeded (fpdev.cpp:128-155). */
    method SetUp(firmwareFile: Option<string>, info: DeviceInfo, configureRc: int, frontPanelEnabled: bool)
      returns (rc: int)
      requires held
      modifies this
      ensures firmwareVersion == FirmwareText(info) && deviceId == info.deviceID &&
        serial == info.serialNumber && usb3 == (info.usbSpeed == USBSPEED_SUPER) &&
        closeOnFailure == old(closeOnFailure)
      ensures
        var configured := old(calls) + [GetDeviceInfo] + [LoadDefaultPLLConfiguration] +
                          (if firmwareFile.Some? then [ConfigureFPGA(firmwareFile.value)] else []);
        if firmwareFile.Some? && configureRc != NO_ERROR then
          rc == FPERR_FPG_CFG_FAILED && lastError == MSG_FPG_CFG_FAILED &&
          !held && calls == configured + [SdkCall.Close, Destroy]
        else if !frontPanelEnabled then
          rc == FPERR_FP_NOT_ENABLED && lastError == MSG_FP_NOT_ENABLED &&
          !held && calls == configured + [IsFrontPanelEnabled, SdkCall.Close, Destroy]
        else
          rc == 0 && lastError == old(lastError) && held && calls == configured + [IsFrontPanelEnabled]
    {
      Issue(GetDeviceInfo);
      firmwareVersion := FirmwareText(info);
      deviceId := info.deviceID;
      serial := info.serialNumber;
      usb3 := info.usbSpeed == USBSPEED_SUPER;
      Issue(LoadDefaultPLLConfiguration);
      rc := Check(firmwareFile, configureRc, frontPanelEnabled);
    }

    /** The checks that end `open` (fpdev.cpp:137-155): configuration when a file is given, then front-panel support. */
    method Check(firmwareFile: Option<string>, configureRc: int, frontPanelEnabled: bool) returns (rc: int)
      requires held
      modifies this
      ensures MetaKept()
      ensures
        var configured := old(calls) + (if firmwareFile.Some? then [ConfigureFPGA(firmwareFile.value)] else []);
        if firmwareFile.Some? && configureRc != NO_ERROR then
          rc == FPERR_FPG_CFG_FAILED && lastError == MSG_FPG_CFG_FAILED &&
          !held && calls == configured + [SdkCall.Close, Destroy]
        else if !frontPanelEnabled then
          rc == FPERR_FP_NOT_ENABLED && lastError == MSG_FP_NOT_ENABLED &&
          !held && calls == configured + [IsFrontPanelEnabled, SdkCall.Close, Destroy]
        else
          rc == 0 && lastError == old(lastError) && held && calls == configured + [IsFrontPanelEnabled]
    {
      if firmwareFile.Some? {
        Issue(ConfigureFPGA(firmwareFile.value));
        if configureRc != NO_ERROR {
          Issue(SdkCall.Close);
          DeleteHandle();
          lastError := MSG_FPG_CFG_FAILED;
          return FPERR_FPG_CFG_FAILED;
        }
      }
      Issue(IsFrontPanelEnabled);
      if !frontPanelEnabled {
        Issue(SdkCall.Close);
        DeleteHandle();
        lastError := MSG_FP_NOT_ENABLED;
        return FPERR_FP_NOT_ENABLED;
      }
      return 0;
    }

    /** `close()` (fpdev.cpp:164-172): always 0, never holds a handle afterwards; a second call changes nothing. */
    method Close() returns (rc: int)
      modifies this
      ensures !held && rc == 0
      ensures old(held) ==> calls == old(calls) + [SdkCall.Close, Destroy]
      ensures !old(held) ==> calls == old(calls)
      ensures lastError == old(lastError) && MetaKept()
    {
      if held {
        Issue(SdkCall.Close);
        DeleteHandle();
      }
      return 0;
    }

    /** `isOpen()` (fpdev.cpp:174-179): false without a handle, otherwise what `IsOpen` reports. */
    method IsOpen(sdkIsOpen: bool) returns (b: bool)
      modifies this
      ensures held == old(held)
      ensures b <==> old(held) && sdkIsOpen
      ensures calls == old(calls) + (if old(held) then [SdkCall.IsOpen] else [])
      ensures lastError == old(lastError) && MetaKept()
    {
      if !held {
        return false;
      }
      Issue(SdkCall.IsOpen);
      return sdkIsOpen;
    }

    /** `resetDevice()` (fpdev.cpp:181-185): the SDK's `ResetFPGA` result. */
    method ResetDevice(sdkRc: int) returns (rc: int)
      modifies this
      ensures !old(held) ==> RejectedDisconnected(rc)
      ensures old(held) ==>
        rc == sdkRc && held && calls == old(calls) + [ResetFPGA] && lastError == old(lastError) && MetaKept()
    {
      if !held {
        lastError := MSG_NOT_CONNECTED;
        return FPERR_NOT_CONNECTED;
      }
      Issue(ResetFPGA);
      return sdkRc;
    }

    /**
     * `getDeviceID()` (fpdev.cpp:187-194). Although a const member, it
     * records an error without a handle; that message has no final period.
     */
    method GetDeviceID(sdkId: string) returns (id: string)
      modifies this
      ensures held == old(held) && MetaKept()
      ensures !old(held) ==> id == "" && lastError == MSG_NOT_CONNECTED_ID && calls == old(calls)
      ensures old(held) ==> id == sdkId && lastError == old(lastError) && calls == old(calls) + [SdkCall.GetDeviceID]
    {
      if !held {
        lastError := MSG_NOT_CONNECTED_ID;
        return "";
      }
      Issue(SdkCall.GetDeviceID);
      return sdkId;
    }

    /** `setDeviceID(deviceID)` (fpdev.cpp:196-201), which dereferences the handle unconditionally. */
    method SetDeviceID(id: string)
      requires held
      modifies this
      ensures held && calls == old(calls) + [SdkCall.SetDeviceID(id)]
      ensures lastError == old(lastError) && MetaKept()
    {
      Issue(SdkCall.SetDeviceID(id));
    }

    /** `setTimeout(timeout)` (fpdev.cpp:158-162), which dereferences the handle unconditionally. */
    method SetTimeout(timeout: U32) returns (rc: int)
      requires held
      modifies this
      ensures held && rc == 0 && calls == old(calls) + [SdkCall.SetTimeout(timeout)]
      ensures lastError == old(lastError) && MetaKept()
    {
      Issue(SdkCall.SetTimeout(timeout));
      return 0;
    }

    /** `setCloseOnFailure(flag)` (fpdev.h:60): only the policy flag changes. */
    method SetCloseOnFailure(flag: bool)
      modifies this
      ensures closeOnFailure == flag
      ensures held == old(held) && calls == old(calls) && lastError == old(lastError)
      ensures firmwareVersion == old(firmwareVersion) && serial == old(serial)
      ensures deviceId == old(deviceId) && usb3 == old(usb3)
    {
      closeOnFailure := flag;
    }

    /**
     * `setWireIn(address, value, sendNow = true)` (fpdev.cpp:203-214).
     * When the failure policy closes the session, `UpdateWireIns` is not sent.
     */
    method SetWireIn(address: U32, value: U32, sdkRc: int, sendNow: bool := true) returns (rc: int)
      modifies this
      ensures !old(held) ==> RejectedDisconnected(rc)
      ensures old(held) ==> (rc == sdkRc &&
        FailurePolicy(rc, [SetWireInValue(address, value)] +
                          (if sendNow && !(sdkRc == FAILED && old(closeOnFailure)) then [UpdateWireIns] else [])))
    {
      if !held {
        lastError := MSG_NOT_CONNECTED;
        return FPERR_NOT_CONNECTED;
      }
      Issue(SetWireInValue(address, value));
      rc := sdkRc;
      if rc == FAILED && closeOnFailure {
        var _ := Close();
        return rc;
      }
      if sendNow {
        Issue(UpdateWireIns);
      }
    }

    /**
     * `getWireOut(address, refreshWireOuts = true)` (fpdev.cpp:216-223):
     * the SDK's value narrowed to `u32`, so never negative when connected.
     */
    method GetWireOut(address: U32, sdkValue: int, refreshWireOuts: bool := true) returns (r: int)
      modifies this
      ensures !old(held) ==> RejectedDisconnected(r)
      ensures old(held) ==> 0 <= r < TWO_32 && r == ToU32(sdkValue) as int
      ensures old(held) ==> (held && lastError == old(lastError) && MetaKept() &&
        calls == old(calls) + (if refreshWireOuts then [UpdateWireOuts] else []) + [GetWireOutValue(address)])
    {
      if !held {
        lastError := MSG_NOT_CONNECTED;
        return FPERR_NOT_CONNECTED;
      }
      if refreshWireOuts {
        Issue(UpdateWireOuts);
      }
      Issue(GetWireOutValue(address));
      var value := ToU32(sdkValue);
      return value as int;
    }

    /** `writeRegister(address, value)` (fpdev.cpp:225-232). */
    method WriteRegister(address: U32, value: U32, sdkRc: int) returns (rc: int)
      modifies this
      ensures !old(held) ==> RejectedDisconnected(rc)
      ensures old(held) ==> rc == sdkRc && FailurePolicy(rc, [SdkCall.WriteRegister(address, value)])
    {
      if !held {
        lastError := MSG_NOT_CONNECTED;
        return FPERR_NOT_CONNECTED;
      }
      Issue(SdkCall.WriteRegister(address, value));
      rc := sdkRc;
      if rc == FAILED && closeOnFailure {
        var _ := Close();
      }
    }

    /**
     * `readRegister(address)` (fpdev.cpp:234-242): the SDK's code when it is
     * non-zero, otherwise the register value zero-extended.
     */
    method ReadRegister(address: U32, sdkRc: int, sdkValue: U32) returns (r: int)
      modifies this
      ensures !old(held) ==> RejectedDisconnected(r)
      ensures old(held) ==> FailurePolicy(sdkRc, [SdkCall.ReadRegister(address)])
      ensures old(held) && sdkRc != 0 ==> r == sdkRc
      ensures old(held) && sdkRc == 0 ==> r == sdkValue as int && 0 <= r < TWO_32
    {
      if !held {
        lastError := MSG_NOT_CONNECTED;
        return FPERR_NOT_CONNECTED;
      }
      Issue(SdkCall.ReadRegister(address));
      var rc := sdkRc;
      if rc == FAILED && closeOnFailure {
        var _ := Close();
      }
      return if rc != 0 then rc else sdkValue as int;
    }

    /**
     * `writePipe(address, data, size, blockSize = 1024)` (fpdev.cpp:244-260).
     * An unaligned write goes through a zero-initialised temporary of the
     * padded size holding the `size` bytes of `data`; an aligned one passes
     * `data` itself. The SDK's `long` result is narrowed to `int`.
     */
    method WritePipe(address: U32, data: array<Byte>, size: nat, sdkRc: int, blockSize: nat := 1024)
      returns (rc: int)
      requires blockSize > 0 && size <= data.Length
      modifies this
      ensures !old(held) ==> RejectedDisconnected(rc)
      ensures old(held) ==> (rc == ToInt32(sdkRc) &&
        FailurePolicy(rc, [WriteToBlockPipeIn(address, ToU32(blockSize), TransferSize(size, blockSize),
                                              PaddedPayload(data[..size], TransferSize(size, blockSize)))]))
    {
      if !held {
        lastError := MSG_NOT_CONNECTED;
        return FPERR_NOT_CONNECTED;
      }
      TransferSizeSpec(size, blockSize);
      if size % blockSize != 0 {
        var writeSize := PaddedSize(size, blockSize);
        var buff := new Buffers.Buffer(writeSize);
        buff.CopyIn(data, size);
        assert buff.elems == PaddedPayload(data[..size], writeSize);
        Issue(WriteToBlockPipeIn(address, ToU32(blockSize), writeSize, buff.elems));
      } else {
        assert data[..size] == PaddedPayload(data[..size], size);
        Issue(WriteToBlockPipeIn(address, ToU32(blockSize), size, data[..size]));
      }
      rc := ToInt32(sdkRc);
      if rc == FAILED && closeOnFailure {
        var _ := Close();
      }
    }

    /**
     * `readPipe(address, data, size, blockSize = 1024)` (fpdev.cpp:262-281).
     * `incoming` is what the SDK leaves in the destination it is given: the
     * padded temporary for an unaligned read, `data` itself otherwise. An
     * unaligned read copies back and reports `size` only when the SDK
     * returned exactly the padded size; otherwise `data` is untouched and
     * the SDK's result is returned as is.
     */
    method ReadPipe(address: U32, data: array<Byte>, size: nat, sdkRc: int, incoming: seq<Byte>,
                    blockSize: nat := 1024)
      returns (rc: int)
      requires blockSize > 0 && size <= data.Length
      requires |incoming| == TransferSize(size, blockSize)
      modifies this, data
      ensures !old(held) ==> RejectedDisconnected(rc) && data[..] == old(data[..])
      ensures old(held) ==>
        FailurePolicy(rc, [ReadFromBlockPipeOut(address, ToInt32(blockSize), TransferSize(size, blockSize))])
      ensures old(held) && Aligned(size, blockSize) ==>
        rc == sdkRc && data[..] == incoming + old(data[size..])
      ensures old(held) && !Aligned(size, blockSize) && sdkRc == PaddedSize(size, blockSize) ==>
        rc == size && data[..] == incoming[..size] + old(data[size..])
      ensures old(held) && !Aligned(size, blockSize) && sdkRc != PaddedSize(size, blockSize) ==>
        rc == sdkRc && data[..] == old(data[..])
    {
      if !held {
        lastError := MSG_NOT_CONNECTED;
        return FPERR_NOT_CONNECTED;
      }
      TransferSizeSpec(size, blockSize);
      if size % blockSize != 0 {
        var readSize := PaddedSize(size, blockSize);
        var buff := new Buffers.Buffer(readSize);
        Issue(ReadFromBlockPipeOut(address, ToInt32(blockSize), readSize));
        buff.elems := incoming;  // the SDK fills the temporary
        rc := sdkRc;
        if rc == readSize {
          forall i | 0 <= i < size {
            data[i] := buff.elems[i];
          }
          rc := size;
        }
      } else {
        Issue(ReadFromBlockPipeOut(address, ToInt32(blockSize), size));
        forall i | 0 <= i < size {
          data[i] := incoming[i];
        }
        rc := sdkRc;
      }
      if rc == FAILED && closeOnFailure {
        var _ := Close();
      }
    }

    // The getters of fpdev.h:72-76: each reads one field.

    function Serial(): (s: string)
      reads this
      ensures s == serial
    {
      serial
    }

    function DeviceID(): (s: string)
      reads this
      ensures s == deviceId
    {
      deviceId
    }

    function FpFirmwareVersion(): (s: string)
      reads this
      ensures s == firmwareVersion
    {
      firmwareVersion
    }

    predicate IsUSB3Speed()
      reads this
      ensures IsUSB3Speed() <==> usb3
    {
      usb3
    }

    function LastError(): (s: string)
      reads this
      ensures s == lastError
    {
      lastError
    }
  }

  // ---------------------------------------------------------------------
  // Device enumeration (static members, fpdev.cpp:64-111)
  // ---------------------------------------------------------------------

  /** The entry `listDevicesInfo` records for a device it could open. */
  function Entry(d: ListedDevice): FPDevInfo
  {
    FPDevInfo(d.serial, d.info.deviceID)
  }

  /** The entries for the devices in list order, skipping those that fail to open. */
  function DevicesInfo(devices: seq<ListedDevice>): seq<FPDevInfo>
  {
    if devices == [] then []
    else
      var last := devices[|devices| - 1];
      DevicesInfo(devices[..|devices| - 1]) + (if last.openRc == NO_ERROR then [Entry(last)] else [])
  }

  /** `listDevices()` (fpdev.cpp:64-73): the SDK's serials, in list order. */
  method ListDevices(serials: seq<string>) returns (devs: seq<string>)
    ensures devs == serials
  {
    devs := [];
    var i := 0;
    while i < |serials|
      invariant 0 <= i <= |serials|
      invariant devs == serials[..i]
    {
      devs := devs + [serials[i]];
      i := i + 1;
    }
  }

  /** `listDevicesInfo()` (fpdev.cpp:75-96). */
  method ListDevicesInfo(devices: seq<ListedDevice>) returns (devs: seq<FPDevInfo>)
    ensures devs == DevicesInfo(devices)
  {
    devs := [];
    var i := 0;
    while i < |devices|
      invariant 0 <= i <= |devices|
      invariant devs == DevicesInfo(devices[..i])
    {
      assert devices[..i + 1][..i] == devices[..i];
      var d := devices[i];
      if d.openRc != NO_ERROR {
        i := i + 1;
        continue;
      }
      devs := devs + [Entry(d)];
      i := i + 1;
    }
    assert devices[..i] == devices;
  }

  /** Listing the devices of two lists one after the other is listing each: the entries keep list order. */
  lemma {:induction false} DevicesInfoConcat(a: seq<ListedDevice>, b: seq<ListedDevice>)
    ensures DevicesInfo(a + b) == DevicesInfo(a) + DevicesInfo(b)
    decreases |b|
  {
    if b == [] {
      assert a + b == a;
    } else {
      var b' := b[..|b| - 1];
      assert (a + b)[..|a + b| - 1] == a + b';
      DevicesInfoConcat(a, b');
    }
  }

  /** At most one entry per device. */
  lemma {:induction false} DevicesInfoLength(devices: seq<ListedDevice>)
    ensures |DevicesInfo(devices)| <= |devices|
  {
    if devices != [] {
      DevicesInfoLength(devices[..|devices| - 1]);
    }
  }

  /** Every entry comes from a device that opened, and every device that opened has its entry. */
  lemma {:induction false} DevicesInfoMembers(devices: seq<ListedDevice>, e: FPDevInfo)
    ensures e in DevicesInfo(devices) <==>
      exists i :: 0 <= i < |devices| && devices[i].openRc == NO_ERROR && e == Entry(devices[i])
  {
    if devices != [] {
      var init, last := devices[..|devices| - 1], devices[|devices| - 1];
      DevicesInfoMembers(init, e);
      var tail := if last.openRc == NO_ERROR then [Entry(last)] else [];
      assert DevicesInfo(devices) == DevicesInfo(init) + tail;
      if e in DevicesInfo(devices) {
        if e in DevicesInfo(init) {
          var i :| 0 <= i < |init| && init[i].openRc == NO_ERROR && e == Entry(init[i]);
          assert devices[i] == init[i];
        } else {
          assert e in tail;
          assert devices[|devices| - 1] == last;
        }
      }
      if exists i :: 0 <= i < |devices| && devices[i].openRc == NO_ERROR && e == Entry(devices[i]) {
        var i :| 0 <= i < |devices| && devices[i].openRc == NO_ERROR && e == Entry(devices[i]);
        if i < |init| {
          assert init[i] == devices[i];
        } else {
          assert e in tail;
        }
      }
    }
  }

  /** `deviceID(serial)` (fpdev.cpp:98-111): "" when the device cannot be opened, else its device ID. */
  function DeviceIDOf(openRc: int, info: DeviceInfo): (id: string)
    ensures openRc != NO_ERROR ==> id == ""
    ensures openRc == NO_ERROR ==> id == info.deviceID
  {
    if openRc != NO_ERROR then "" else info.deviceID
  }

  /** For a device that opens, `deviceID(serial)` is the device ID `listDevicesInfo` lists for it. */
  lemma DeviceIDOfListed(devices: seq<ListedDevice>, i: nat)
    requires i < |devices| && devices[i].openRc == NO_ERROR
    ensures FPDevInfo(devices[i].serial, DeviceIDOf(devices[i].openRc, devices[i].info)) in DevicesInfo(devices)
  {
    DevicesInfoMembers(devices, Entry(devices[i]));
  }
}
