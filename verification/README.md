# DFU bootloader: a verified model

The bootloader receives firmware over USB (device class DFU 1.1), writes it to internal flash, and on
the next reset decides whether to start what it finds there. This project models that path and proves
what it promises: no byte is lost between the packets and the flash, a half-written application is
never started, a program call never meets a page that is not erased, and a fault-free download always
ends with exactly the image in flash, however it was cut into packets.

## How the model is laid out

| file | what it holds |
|---|---|
| `Layout.dfy`, `Bytes.dfy` | memory map, constants, page arithmetic; byte buffers and little-endian words |
| `ShiftRegister.dfy`, `Crc32.dfy` | folds over shift registers; the CRC loops, the table CRC of section 8 of RFC 1952, streaming and burst detection |
| `FlashControl.dfy`, `FlashDevice.dfy` | the flash controller as an arbitrary environment, the driver as a function and as a class with the source's loops |
| `DfuMachine.dfy`, `DfuDevice.dfy` | the DFU engine as a state machine, and as a class with mutable buffers proved to take exactly the machine's steps |
| `Invariant.dfy`, `InvariantSteps.dfy`, `ManifestSteps.dfy` | the invariant of every reachable state, step by step |
| `Protocol.dfy` | what the invariant says about whole runs |
| `Header.dfy` | the embedded header byte by byte, as download, main and upload read it |
| `Replies.dfy` | what the host sees: packets taken, answers, errors |
| `CrashSafety.dfy`, `CrashBoot.dfy` | what a power loss leaves behind, at every flash primitive, and what main decides there |
| `CutShort.dfy` | power lost within a primitive, and while the bootloader is being replaced |
| `AppWholeness.dfy` | across aborted sessions, errors and resets: no application is a mixture of two |
| `Delivery.dfy` | fault-free downloads: every schedule is safe, and one always gets there |
| `UploadStream.dfy` | uploads |
| `Bootloader.dfy`, `FirmwareUpdate.dfy` | image CRC and boot decision; from download to boot |
| `Recovery.dfy` | from power loss to boot, or to DFU mode and a new download |
| `Formatter.dfy` | `util_log2` and `util_vsnprintf` |

The imperative code of the source (the engine, the flash driver, the CRC and formatter loops) is
imperative here too. Each method is proved equal to a function of the old state, and the properties are
proved about those functions, over all event sequences.

**The flash controller** is a script that says, primitive by primitive, whether the vendor call reports
an error and what it really leaves in the block or page it was given. Statements are for every script,
so for every behaviour of the hardware that stays within the addressed page; only those that mention
`AllNominal` (no fault), `Confined` (no write beyond the 16-byte block given) or `Orderly` (every byte is
as the primitive should leave it, or as it was) restrict it. After every primitive the whole memory is
recorded. These snapshots are the crash points; an interrupted primitive is one that reaches only some
bytes, or one with an arbitrary effect.

**The engine** is stated over any driver that keeps the driver's contracts (`Honest`, and `Careful` or
`Healthy` where needed); `FlashIsHonest`, `FlashIsCareful` and `FlashIsHealthy` show that the modelled
driver does.

**Events** are setup packets, data stages, completions of transfers and polls of the main loop, in any
order. The record `Log` (the received stream, memory at the start of the session, memory last committed)
is history: nothing the engine does depends on it.

Assumptions: endpoint-0 transfers are serialised, so a data stage ends before the next setup packet or is
given up by it; a data stage is a single packet (`src/dfu/dfu.c:46`), so at most 64 bytes
(`src/usb/descriptors.c:14`);
a poll is not interrupted by setup packets, though power may fail at every flash primitive in it. Memory
is read as bytes by address up to the end of the flash.

**Layout.** The starts of the two regions are abstract: page-aligned, disjoint, inside a 32-bit address
space; the header offset is any word that leaves room for the 32-byte header in the first page. The
literal `APP_START` of `device/max32650/include/memory_layout.h:18` is `BOOTLOADER_START +
BOOTLOADER_START`, outside the flash, while `src/dfu/upload.c:20` presumes that the application directly
follows the bootloader. That presumption is a hypothesis of `UploadReturnsDownload` and of nothing else.

## Model

| member | source | states |
|---|---|---|
| Crc32.ComputeCrc32 | src/util.c:168-180 | the bitwise loops compute the table-driven CRC of section 8 of RFC 1952, for every byte sequence and starting value |
| Crc32.StepsAgree | src/util.c:174-176 | eight shift-and-xor steps are one table step |
| Crc32.FoldsAgree | src/util.c:171-177 | the bitwise and the table-driven register agree on every byte sequence |
| Crc32.Residue | src/util.c:168-180 | a sequence followed by its own CRC, least significant byte first, has the residue 2144DF1C, for every sequence |
| Crc32.CheckValue | src/util.c:168-180 | the CRC of the nine ASCII digits is CBF43926, the value CRC-32 is checked by |
| Crc32.UpdateCrcConcat | src/bootloader.c:30-32 | a CRC continued over a second buffer is the CRC of the concatenation |
| Crc32.BurstDetected | src/util.c:168-180 | two sequences that differ only inside four consecutive bytes never have the same CRC |
| Layout.PageOfMasks | device/max32650/src/flash_control.c:25 | the page an address is rounded down to is the address less its remainder by the page size |
| FlashControl.EraseContract | device/max32650/src/flash_control.c:20-43 | from read-back alone: success means the page is all 0xFF; nothing outside the page is ever touched; healthy hardware succeeds |
| FlashControl.ProgramContract | device/max32650/src/flash_control.c:45-69 | from read-back alone: success means the page holds the buffer; nothing outside the page is ever touched; blocks are written in order if no write leaves its block |
| FlashControl.EraseStatus | device/max32650/src/flash_control.c:27-40 | which error: the controller's, or the read-back's, and exactly when |
| FlashControl.ProgramStatus | device/max32650/src/flash_control.c:51-66 | a failed write, which ends the loop there, or a read-back that differs, and exactly when |
| FlashControl.AndAsBits | device/max32650/src/flash_control.c:52 | programming a byte leaves the bits set that were set and are set in the data |
| FlashControl.ProgramBlankSucceeds | device/max32650/src/flash_control.c:51-66 | programming clears bits only, and on a blank page read-back fails only when the hardware does |
| FlashControl.WriteLoopNominal | device/max32650/src/flash_control.c:51-56 | the block-by-block loop writes exactly the buffer into a blank page |
| FlashControl.WriteLoopInOrder | device/max32650/src/flash_control.c:51-56 | after the k-th write only the first k blocks can differ from before |
| FlashControl.FlashIsHonest | device/max32650/src/flash_control.c:20-69 | the driver meets the contract the engine relies on |
| FlashDevice.Flash.ErasePage | device/max32650/src/flash_control.c:20-43 | the method with its loop does what Erase says, state and status |
| FlashDevice.Flash.CheckErased | device/max32650/src/flash_control.c:32-40 | the word loop accepts exactly the blank pages |
| FlashDevice.Flash.ProgramPage | device/max32650/src/flash_control.c:45-69 | the method with its two loops does what Program says, state and status |
| FlashDevice.Flash.WriteAll | device/max32650/src/flash_control.c:51-56 | the write loop is the recursion that WriteLoopNominal and WriteLoopInOrder are about |
| FlashDevice.Flash.ReadBack | device/max32650/src/flash_control.c:58-66 | the word loop accepts exactly the pages equal to the buffer |
| DfuDevice.Dfu.constructor | src/dfu/dfu.c:117-123 | power-up state, for which PowerUpHolds proves the invariant |
| DfuDevice.Dfu.DownloadStart | src/dfu/download.c:14-28 | a new session: counters, flags and recorded header cleared, everything else kept |
| DfuDevice.Dfu.DownloadCheckDone | src/dfu/download.c:36-47 | the manifest gate, decided by CheckDoneDecides in terms of the stream |
| DfuDevice.Dfu.DownloadVerifyHeader | src/dfu/download.c:49-68 | the header check, whose result and effect VerifyDecides characterises |
| DfuDevice.Dfu.DownloadPacket | src/dfu/download.c:70-103 | in-place copies into page and overflow buffers, and the header check, take the machine's packet step |
| DfuDevice.Dfu.DownloadBusyPoll | src/dfu/download.c:105-140 | erase, hold back or program, move on: takes the machine's flush step on every hardware behaviour |
| DfuDevice.Dfu.DownloadManifest | src/dfu/download.c:142-199 | takes the machine's manifest step on every hardware behaviour |
| DfuDevice.Dfu.UploadStart | src/dfu/upload.c:11-26 | starts at zero with the length that the flash announces |
| DfuDevice.Dfu.UploadNext | src/dfu/upload.c:40-57 | one chunk, cut at the end; counters advance even when the endpoint refuses |
| DfuDevice.Dfu.StateIdle | src/dfu/dfu.c:142-204 | every request in IDLE, including the dirty check of DETACH |
| DfuDevice.Dfu.StateDownloadSync | src/dfu/dfu.c:206-231 | every request in DNLOAD-SYNC |
| DfuDevice.Dfu.StateDownloadIdle | src/dfu/dfu.c:247-289 | every request in DNLOAD-IDLE, including a refused read endpoint and the end of the download |
| DfuDevice.Dfu.StateManifestSync | src/dfu/dfu.c:291-316 | every request in MANIFEST-SYNC |
| DfuDevice.Dfu.StateUploadIdle | src/dfu/dfu.c:332-368 | every request in UPLOAD-IDLE |
| DfuDevice.Dfu.StateError | src/dfu/dfu.c:370-392 | every request in ERROR |
| DfuDevice.Dfu.StateMachine | src/dfu/dfu.c:394-429 | every setup packet in every state |
| DfuDevice.Dfu.DataStage | device/max32650/src/usb/util.c:12-22 | the data stage hands the actual bytes to the download |
| DfuDevice.Dfu.SendComplete | src/dfu/dfu.c:68-78 | a failed transfer is an error, a completed one changes nothing |
| DfuDevice.Dfu.PollState | src/dfu/dfu.c:447-466 | one turn of the main loop; it ends exactly in DETACH |
| DfuDevice.Dfu.HandleAll | src/main.c:51-53 | every run of the object is a run of the machine, so all that follows is about the object |
| Replies.PacketTaken | src/dfu/dfu.c:146-153 | a host that asks to send up to 64 bytes and sends them is taken at its word: all of them join the stream, in a new session from IDLE |
| Replies.PacketIgnored | src/dfu/dfu.c:34-49 | without such a request, or when the endpoint refuses it, nothing is taken |
| Replies.StatusAnswered | src/dfu/dfu.c:80-101 | GETSTATUS is answered with the status and state the engine is in from then on, and a wait of 700 ms when busy, 1200 ms when manifesting, none otherwise |
| Replies.StateAnswered | src/dfu/dfu.c:103-115 | GETSTATE is answered with the state and changes nothing |
| Replies.NothingPending | src/dfu/dfu.c:394-429 | every other request leaves no transfer pending, and so does one the endpoint refuses |
| Replies.RefusedStalls | src/dfu/dfu.c:196-388 | the requests a state does not take stall with that status and change nothing else |
| Replies.DetachAnswered | src/dfu/dfu.c:185-195 | a clean engine detaches, a dirty one reports a firmware error |
| Replies.BackToIdle | src/dfu/dfu.c:272-276 | aborts and cleared errors lead to IDLE and change nothing else |
| Replies.RequestsSpareDownload | src/dfu/dfu.c:394-429 | no request but the one that begins a session touches the session |
| Replies.RequestsSpareUpload | src/dfu/dfu.c:394-429 | no request but one for an upload touches the upload |
| Replies.NothingDone | src/dfu/dfu.c:336-349 | an upload request without length, an abort in IDLE and anything after DETACH do nothing |
| Replies.CompletionOutcome | src/dfu/dfu.c:68-78 | a failed transfer is an unknown error, a good one only ends |
| Replies.UploadRefused | src/dfu/upload.c:46-54 | an upload the endpoint refuses is an unknown error, and its bytes count all the same |
| Replies.UploadNumbered | src/dfu/upload.c:16-49 | uploads count their requests in 32 bits, from one on |
| Replies.HeaderErrors | src/dfu/download.c:52-65 | a wrong magic is a target error, a right one with a wrong start address a file error |
| Replies.FlashReports | device/max32650/src/flash_control.c:20-69 | an erase reports erase errors, a program program errors |
| Replies.PollBlames | src/dfu/download.c:111-191 | a failed poll reports the error of the driver call it failed in |
| Header.ParsesHeader | include/bootloader.h:23-33 | the header is read at the offsets of the packed struct, words least significant byte first |
| Header.JudgesHeader | src/dfu/download.c:49-68 | the check in terms of the bytes of the header: magic 54 4F 4F 42, then the start address, then whether it is an application |
| Header.FindsApplication | src/main.c:13-29 | what main reads of an application, in terms of the bytes of its header |
| Header.AnnouncesOwnLength | src/dfu/upload.c:22 | without an application an upload announces the word twelve bytes into the bootloader's header |
| Header.AnnouncesAppLength | src/dfu/upload.c:20 | with one it announces 32 KiB more than the word twelve bytes into the application's, in 32 bits |
| Invariant.CheckDoneDecides | src/dfu/download.c:36-47 | the 32-bit progress is the length of the stream: what the check decides, for every stream |
| Invariant.SetupKeeps | src/dfu/dfu.c:142-429 | every setup packet keeps the invariant |
| InvariantSteps.BufferKeeps | src/dfu/download.c:76-85 | across page boundaries the two buffers hold exactly what is not in flash |
| InvariantSteps.HeaderStep | src/dfu/download.c:76-96 | the check runs at exactly the packet that completes the header and sees the header of the stream; later packets leave it right |
| InvariantSteps.DataKeeps | src/dfu/download.c:70-103 | every data stage keeps the invariant |
| InvariantSteps.FlushKeeps | src/dfu/download.c:105-140 | a flush keeps the invariant whatever the hardware does |
| InvariantSteps.PageDoneBuffers | src/dfu/download.c:132-136 | the overflow opens the next page and no byte is lost |
| ManifestSteps.SealOutcome | src/dfu/download.c:185-198 | programming the held-back first page completes the image, or fails |
| ManifestSteps.ManifestOutcome | src/dfu/download.c:142-199 | a manifest fails, or leaves the old memory with exactly the padded image installed; short, whole-page and straddling images alike |
| ManifestSteps.InstalledBytes | src/dfu/download.c:142-185 | installed means: the stream byte by byte, FF up to the end of its last 16 KiB page, everything else as before |
| ManifestSteps.StepKeeps | src/dfu/dfu.c:394-466 | every event keeps the invariant |
| ManifestSteps.RunKeeps | src/main.c:51-53 | the invariant holds after every run |
| Protocol.PowerUpHolds | src/dfu/dfu.c:117-123 | after a reset the engine is idle, without error and clean, and the invariant holds |
| Protocol.ReachableHolds | src/main.c:47-53 | the invariant holds in every reachable state: error exactly with a status, a busy engine has a full page under a verified header, and so on |
| Protocol.FollowsDiagram | src/dfu/dfu.c:394-466 | every step is a transition of the state diagram in appendix A of the USB DFU 1.1 specification, and has the cause the diagram gives it: which request, with or without data, a data stage, a failed transfer or a poll |
| Protocol.DownloadPath | src/dfu/dfu.c:206-316 | where the diagram leaves a choice on the download path, the received stream makes it: busy exactly when a whole page waits, an error exactly at the packet that completes a bad header |
| Protocol.DetachAbsorbs | src/dfu/dfu.c:458-460 | once detached nothing changes any more |
| Protocol.StreamConserved | src/dfu/download.c:76-85 | in every session state held-back page, flash, page buffer and overflow, in order, are exactly the bytes received, with the bounds of the counters |
| Protocol.ManifestGate | src/dfu/dfu.c:258-270 | an empty download request starts a manifest if and only if the stream carries a header and the length it names; which error otherwise |
| Protocol.ManifestOnlyWhole | src/dfu/dfu.c:295-304 | no other way leads into a manifest |
| Protocol.HeaderGate | src/dfu/download.c:87-96 | one header check per session; a session that has not passed it has asked the flash for nothing |
| Protocol.CallsInRegion | src/dfu/download.c:105-185 | every flash call of a session lies a whole number of pages above the region start the header names |
| Protocol.OnlyPollsTouchFlash | src/dfu/dfu.c:447-466 | setup packets, data stages and completions leave flash, dirty flag and committed memory alone |
| Protocol.FlashDiscipline | src/dfu/download.c:111-185 | in every run every program call meets a page that is all 0xFF, the first page included |
| Protocol.CleanMeansCommitted | src/dfu/dfu.c:185-195 | dirty clear means that flash is what it was at boot or after the last successful manifest; so DETACH is entered with no partial update outstanding |
| Protocol.CommittedByManifest | src/dfu/download.c:185-198 | only a manifest that succeeds commits, and it commits what it installed |
| Protocol.BootloaderUpdateSparesApp | src/dfu/download.c:107-185 | a bootloader update touches nothing from the application on if and only if its image, in whole pages, ends there |
| Protocol.ManifestDelivers | src/dfu/download.c:105-199 | on any hardware, success of a manifest means flash is the old memory with exactly the stream installed, by exactly these erase and program calls, the first page programmed last |
| FlashControl.EraseFades | device/max32650/src/flash_control.c:27 | an erase cut short leaves each byte as it was or erased, if erasing is orderly |
| FlashControl.ProgramSnaps | device/max32650/src/flash_control.c:51-56 | the crash points of a healthy program call, exactly: one more block of the buffer each |
| CrashSafety.FlashIsCareful | device/max32650/src/flash_control.c:20-69 | every primitive of a driver call stays in its page, block after block, and none of them leaves anything new behind |
| CrashSafety.ManifestPoints | src/dfu/download.c:142-199 | the crash points of a manifest: up to the call that programs the first page, that page is blank or on its way there over the old body; from then on the new body is in place and the page grows block by block; all of it inside the image's region |
| CrashSafety.FlushPoints | src/dfu/download.c:105-140 | the crash points of a flush: first page blank, or nothing but the first page touched; all inside the image's region |
| CrashSafety.StepCrashPoints | src/dfu/dfu.c:394-466 | every crash point of every step is of these kinds, and only polls have any |
| CrashSafety.RunCrashPoints | src/main.c:51-53 | every crash point of every run was taken by one poll, and is safe for the session of that time |
| CrashBoot.NeverBootsMixture | src/main.c:26-33 | at a safe crash point of an application update main starts at most an image whose body is as the session found it, or that of the finished image |
| CrashBoot.HalfWrittenEntersDfu | src/dfu/download.c:119-130 | from the second flushed page on every crash point enters DFU mode, if main can read its own image |
| CrashBoot.SessionEntersDfu | src/dfu/download.c:119-121 | between events too |
| CrashBoot.MagicComesLast | src/dfu/download.c:185-191 | in the manifest every crash point before the block holding the magic is written enters DFU mode (if main can read its own image), or has nothing but the old first page touched; the count is from the call that programs the first page |
| CrashBoot.MagicWithoutLength | src/bootloader.c:28-32 | a first page cut between magic and length makes main read outside memory |
| CrashBoot.ManifestReadable | src/dfu/download.c:185-191 | on hardware that completes every primitive, main can read memory at every crash point of a successful manifest of an application if and only if it could read its own image before, the header lies within one block and its length reaches past the checksum |
| CutShort.CutEraseUnreadable | device/max32650/src/flash_control.c:27 | an erase cut short between length and magic of an application leaves memory that main cannot read |
| CutShort.FirstEraseUnreadable | src/dfu/download.c:111-117 | some orderly hardware can be stopped so in the first erase of an update if and only if there was an application |
| CutShort.MagicInSomeBlock | device/max32650/linker.ld:14 | the header is aligned to words, so its magic lies within one block of the first page |
| CutShort.SealingPending | src/dfu/download.c:185 | when the block with the magic comes next in the manifest, it and the length field are still blank |
| CutShort.CutWriteUnreadable | device/max32650/src/flash_control.c:52 | then a write of that block that reaches the magic and nothing else leaves memory that main cannot read, wherever the header sits in its block |
| CutShort.FirstPollSparesBootloader | src/dfu/download.c:105-117 | the first crash point of a healthy session leaves the bootloader alone if and only if the session is one of an application, or the bootloader's first page was blank; otherwise that page is blank now |
| AppWholeness.FadingBringsNoMagic | src/dfu/download.c:111-117 | an erase cut short cannot make a magic out of anything else |
| AppWholeness.StepVouched | src/dfu/dfu.c:394-466 | every step and all its crash points leave an application without magic, or with the body of the one memory that vouched for it before or of the image whose manifest the step begins |
| AppWholeness.RunVouched | src/main.c:51-53 | the same for every run: across aborts, errors and restarted sessions |
| AppWholeness.CrashVouched | src/main.c:51-53 | the same for every crash point of every run |
| AppWholeness.LifetimeKeeps | src/main.c:11-63 | the flash discipline survives any number of resets and power losses |
| AppWholeness.LifetimeVouched | src/main.c:11-63 | so does the wholeness of the application: its body is that of the first memory or of one whole image set out to be installed in some life |
| Delivery.FlashIsHealthy | device/max32650/src/flash_control.c:20-69 | without hardware faults no call inside the flash fails |
| Delivery.ListensOn | src/dfu/dfu.c:146-153 | through all of it the engine waits for as many bytes as the host has asked to send |
| Delivery.CourseKept | src/dfu/dfu.c:394-466 | no fault-free event leads into an error or loses a packet the host has asked to send, and none increases the work left |
| Delivery.Progress | src/dfu/dfu.c:206-316 | there always is a fault-free event that decreases it; when none is left the image is delivered |
| Delivery.DownloadDelivers | src/dfu/download.c:70-199 | every fault-free run, every split into packets of up to 64 bytes within what the host asked to send, and every schedule of polls and status requests, ends with the padded image in flash and every other byte unchanged |
| Delivery.DownloadCompletes | src/dfu/dfu.c:206-316 | a download can always be finished, within five events a byte and five more |
| UploadStream.ChunksAreFlash | src/dfu/upload.c:40-57 | whatever sizes are asked for, the pieces continue what was sent without gap or overlap, never past the announced end |
| UploadStream.UploadIsFlash | src/dfu/upload.c:11-57 | a whole upload is what lies from the bootloader on, all of it once enough is asked for, nothing afterwards, as long as the 32-bit counter has room for the requests |
| UploadStream.NothingAfterTheEnd | src/dfu/upload.c:46-48 | nothing afterwards, for every size of request, if and only if the 32-bit counter has room for one more |
| Bootloader.ThreeParts | src/bootloader.c:30-32 | the three streamed calls are one CRC over the image with its checksum field blanked |
| Bootloader.CrcCheckValue | src/bootloader.c:23-35 | the CRC of bytes is CRC-32: that of the nine ASCII digits is CBF43926 |
| Bootloader.CalculateImageCrc32 | src/bootloader.c:23-35 | that CRC, for the image the header delimits |
| Bootloader.ChecksumFieldIgnored | src/bootloader.c:26-32 | the CRC does not depend on the stored checksum |
| Bootloader.InsertedIsIntact | insert_checksum.sh:15-25 | inserting the CRC of an image linked with a blank checksum makes the boot check pass |
| Bootloader.BurstChangesCrc | src/bootloader.c:23-35 | images that differ only inside four consecutive bytes clear of the checksum field have different CRCs |
| Bootloader.Boot | src/main.c:19-33 | the decision, in the order the source makes it: its own image is read first |
| Bootloader.StoredInImage | src/main.c:29 | the checksum compared with is the one in the image |
| Bootloader.JumpsIffIntact | src/main.c:19-62 | the application is started if and only if main can read its own image, the application's magic is there, nobody asked for DFU, and the image matches its checksum; main reads outside memory if and only if it cannot read its own image, or finds the magic of an application it cannot read |
| FirmwareUpdate.InstalledBoots | src/main.c:19-62 | an installed application is started if and only if its own checksum vouches for it, nobody asked for DFU and main can read its own image; main reads outside memory if and only if it cannot, or the application's length falls short of the checksum |
| FirmwareUpdate.InstalledBootloaderReadable | src/main.c:19 | main can read an installed bootloader image if and only if its length reaches past the checksum |
| FirmwareUpdate.DetachKeepsImage | src/dfu/dfu.c:185-195 | any hardware, any history: after a successful manifest and a later DETACH without another, flash holds exactly the image over what the session found |
| FirmwareUpdate.DetachBootsImage | src/dfu/dfu.c:185-195 | for an application the reset then decides exactly as InstalledBoots says |
| FirmwareUpdate.DetachBootsBootloader | src/main.c:19 | for a bootloader image whose length falls short of the checksum every later reset reads outside memory before anything else, and only for such an image |
| FirmwareUpdate.DownloadedAppStarts | src/main.c:19-62 | fault-free download of a bootable application, then DETACH: the reset starts it, or enters DFU mode if asked to, provided that main can read its own image |
| Recovery.StepReadable | src/dfu/dfu.c:394-466 | on hardware that completes every primitive, in sessions of applications with readable headers, every step and crash point leaves memory that main can read and the bootloader as it was |
| Recovery.HealthyManifestReadable | src/dfu/download.c:142-199 | the condition of ManifestReadable is exact for every application that fits |
| Recovery.UnreadablePoint | src/bootloader.c:30-32 | without it there is a crash point from which main reads outside memory |
| Recovery.DfuIsRecoverable | src/main.c:33-53 | whatever flash holds, DFU mode can install exactly the given application by a fault-free download of bounded length, and the reset starts it if main can read its own image |
| Recovery.PowerLossIsRecoverable | src/main.c:19-62 | power lost between any two primitives of a run whose polls work on applications with readable headers: everything below the application is as before, the reset starts an application or enters DFU mode, and the above applies |
| Recovery.CrashNeverBootsMixture | src/main.c:26-33 | every crash point of every run from a reset, with the poll that left it: if that poll works on an application, main starts at most what its session found behind the first page, or its finished image; of polls that work on the bootloader it says nothing |
| Recovery.StartedAppIsWhole | src/main.c:26-62 | any number of lives: an application that a reset starts has the body of one memory, the first or a whole image set out to be installed |
| FirmwareUpdate.OnlyImageMatters | src/main.c:19-33 | the decision depends on the application's image, on whether main can read its own, and on no other byte |
| FirmwareUpdate.BurstKeepsAppFromStarting | src/main.c:26-33 | a changed window of four bytes, clear of length and checksum, keeps a good application from being started |
| FirmwareUpdate.UploadReturnsDownload | src/dfu/upload.c:16-25 | with the application right behind the bootloader, an upload after a download returns it |
| FirmwareUpdate.UploadWithoutApplication | src/dfu/upload.c:16-25 | without an application an upload is exactly as many bytes from the bootloader on as the word twelve bytes into its header says |
| Formatter.Log2 | src/util.c:14-22 | smearing, multiplying and looking up yields the position of the highest set bit, for every nonzero word |
| Formatter.DigitCountByLog | src/util.c:115-119 | a quarter of the logarithm, plus one, is the number of hexadecimal digits |
| Formatter.DigitsSpell | src/util.c:131-139 | the digits read back as the number |
| Formatter.LeadingDigit | src/util.c:115-139 | no leading zero beyond the padding |
| Formatter.NumberReadsBack | src/util.c:97-141 | sign, padding and digits read back as the word, for every word, signedness and padding |
| Formatter.SignPrinted | src/util.c:104-107 | a sign is printed exactly for signed numbers with the top bit set |
| Formatter.HexDigit | src/util.c:132-137 | the sixteen digits are 0 to 9 and A to F |
| Formatter.WriteNumber | src/util.c:97-141 | the loop writes that text and its terminator inside the 20-byte scratch buffer |
| Formatter.PadIsDecimal | src/util.c:60-64 | the padding is the decimal value of the whole run of digits |
| Formatter.ScanReadsSpelling | src/util.c:43-113 | a directive is read back as it is written, wherever it stands in the format string, with the padding cut to eight |
| Formatter.FormatMeansDirectives | src/util.c:43-154 | the format string of any list of directives prints what they print, in order, each with its own argument |
| Formatter.PieceOf | src/util.c:84-152 | in the format string of any list of directives each one prints its own argument, numbered by the directives before it that take one: a string up to its first NUL; a number that reads back as the argument, with its sign, hexadecimal digits only, and as many of them as it takes or the padding, up to eight, asks for |
| Formatter.NumberPrinted | src/util.c:97-152 | the same for a number alone |
| Formatter.TextPrinted | src/util.c:84-95 | the same for a string alone |
| Formatter.UnsignedConversions | src/util.c:102-113 | u, x, X and p print without a sign; any other character but s and d prints nothing |
| Formatter.PaddingAtEndStops | src/util.c:66-68 | a padding that ends the format string ends the output |
| Formatter.PlainTextPrintsItself | src/util.c:44-55 | text without directives prints itself |
| Formatter.NothingBehindNul | src/util.c:43 | what follows a NUL in the format string is not looked at |
| Formatter.StrLen | src/util.c:24-30 | the length of a string argument is that of the part before its first NUL |
| Formatter.CutIsPrefix | src/util.c:45-47 | truncated output is the beginning of the whole output, and it is truncated exactly when the whole does not fit |
| Formatter.Format | src/util.c:32-158 | the loop ends, the output is terminated and shorter than the buffer, is the cut text, and nothing behind the terminator is written |

## Findings

Properties that the design suggests and that do not hold of the code as it is. Each row names the lemma that
states the exact condition.

| member | source | finding |
|---|---|---|
| Recovery.HealthyManifestReadable | src/bootloader.c:28-32 | Expected: after a power loss in the manifest of an application the reset starts it or enters DFU mode. On hardware that completes every primitive, and with power lost between two of them, this holds if and only if main could read its own image before, the header lies within one 16-byte block (its offset is a multiple of 16) and its length reaches past the checksum. Otherwise power can be lost when the magic is written and the length is not: the length then reads FFFFFFFF, and `calculate_image_crc32` runs off memory at every reset, before DFU mode. The failing crash point is in Recovery.UnreadablePoint and CrashBoot.MagicWithoutLength. `device/max32650/linker.ld:14` aligns the header to 4 bytes only; behind 97 vectors (`device/max32650/src/startup.c:200-298`) it sits at 388, which is 4 more than a multiple of 16. |
| CutShort.FirstEraseUnreadable | src/dfu/download.c:111-117 | Expected: the same when power is lost within a primitive. The erase that begins an update of an application can be cut short with the magic left and the length erased, whatever the header's place and length; it can if and only if there was an application. Likewise the write of the block with the magic (CutShort.CutWriteUnreadable). |
| FirmwareUpdate.DetachBootsImage | src/dfu/download.c:36-47 | Expected: main can read an application that was accepted. If it can read its own image, it can if and only if the length in the application's header reaches past the checksum, which the download does not check. |
| FirmwareUpdate.DetachBootsBootloader | src/main.c:19 | Expected: main can read a bootloader image that was accepted. It can if and only if the length in its header reaches past the checksum, which the download does not check; otherwise every reset fails in the self-check, before anything else. |
| CutShort.FirstPollSparesBootloader | src/dfu/download.c:105-117 | Expected: a power loss during an update leaves a bootloader to recover with. The first crash point of a session spares it if and only if the session is one of an application; that of a bootloader image blanks the page with the vector table and header of the running code. |
| Protocol.BootloaderUpdateSparesApp | src/dfu/download.c:105-124 | Expected: a bootloader update leaves the application alone. It does if and only if its image ends, in whole pages, where the application begins, which the download does not check. |

## Left out

- Bootloader.CalculateImageCrc32: an image whose length field is below the end of the checksum makes the source read far outside the image; the outcome is then None (ReadFault in the decision) instead of the CRC of unknown memory.
- UploadStream.UploadIsFlash: assumes that the requests do not carry the 32-bit counter past its end; NothingAfterTheEnd shows where they do.
- DfuDevice.Dfu.UploadNext: what lies beyond the flash is one unknown, unchanging function of the address.
- DfuDevice.Dfu.DataStage: data stages of more than 64 bytes, which a single packet of endpoint 0 cannot carry, are ignored instead of overrunning the control buffer.
- CrashBoot.MagicComesLast: assumes that a write reaches no further than its block; without that assumption the kinds of crash points in StepCrashPoints are what is claimed, and with healthy hardware ManifestReadable covers the points after the magic.
- Bootloader.Boot: what the self-check prints is not modelled, only that it reads its image first; the code that runs is the same before and after a bootloader update.
- CrashBoot.NeverBootsMixture: compares with memory as the session found it; StartedAppIsWhole is the statement across sessions.
- AppWholeness.LifetimeVouched: assumes that an erase cut short leaves each byte as it was or erased, that bootloader images end before the application (see Findings), and that every life runs the same code, also after a bootloader update and after a power loss in one; it speaks of the pages behind the first, which is vouched for by the CRC alone while it is being written.
- Recovery.StartedAppIsWhole: rests on the same three assumptions.
- Recovery.PowerLossIsRecoverable: excludes runs with polls that work on the bootloader, headers that straddle blocks or are too short, and power lost within a primitive; Findings says why each of them has to be excluded.
- Recovery.CrashNeverBootsMixture: concludes nothing about polls that work on the bootloader.
- Power-loss safety of a bootloader that updates itself is not something the source provides.
- Formatter.Format: a padding of so many digits that the C integer overflows is modelled without overflow.
- Acknowledge and stall handshakes, the byte encoding of status replies, and the length of GETSTATE replies (the source sends the size of a pointer, `src/dfu/dfu.c:114`).
- All printed messages, the warning about the bootloader's own checksum among them (`src/main.c:20-24`).
- USB enumeration, configuration requests, callback registration, descriptors and the vendor USB stack; callbacks with null pointers.
- Jumps, interrupt and clock registers, delays and UART: a jump is an outcome value, the shared magic word a parameter of the decision.
- The endless poll loop of main is covered as finite runs of any length.
- Fields that nothing reads: version and reserved fields of the header, the protocol states the engine never enters, `desc_index_status`, `verr`.
