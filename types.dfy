/**
 * Shared vocabulary of the title installer: fixed-width integers, the
 * constants that come from ES headers, title and TMD records, the result
 * codes of an online update and the events the engine leaves behind.
 */
module Types {

  type byte = x: int | 0 <= x < 0x100
  type u16 = x: int | 0 <= x < 0x1_0000
  type u32 = x: int | 0 <= x < 0x1_0000_0000
  type u64 = x: int | 0 <= x < 0x1_0000_0000_0000_0000
  type bytes = seq<byte>

  datatype Option<T> = None | Some(value: T)

  // Title ids (Core/CommonTitles.h).
  const BOOT2: u64 := 0x0000_0001_0000_0001
  const SYSTEM_MENU: u64 := 0x0000_0001_0000_0002

  // The high word of a title id is its type; 1 is a system title
  // (IOS::ES::TitleType::System).
  const SYSTEM_TITLE_TYPE: u32 := 0x0000_0001

  // Return codes of the secure store (IOS/IOS.h).
  const IPC_SUCCESS: int := 0
  const IOSC_FAIL_CHECKVALUE: int := -2011

  // Sizes of the on-wire ES structures (IOS/ES/Formats.h).
  const TICKET_SIZE: nat := 0x2a4
  const TMD_HEADER_SIZE: nat := 0x1e4
  const CONTENT_SIZE: nat := 0x24
  const NUM_CONTENTS_OFFSET: nat := 0x1de

  /** IOS::ES::IsTitleType(id, TitleType::System). */
  predicate IsSystemTitle(id: u64) {
    id / 0x1_0000_0000 == SYSTEM_TITLE_TYPE
  }

  /** SystemUpdater::TitleInfo: a catalog entry. */
  datatype TitleInfo = TitleInfo(id: u64, version: u16)

  /** DiscIO::Region as returned by a TMD. */
  datatype Region = NtscJ | NtscU | Pal | NtscK | UnknownRegion

  /** One IOS::ES::Content entry of a TMD. */
  datatype Content = Content(id: u32, index: u16)

  /** The fields of a valid TMD that the installer reads. */
  datatype Tmd = Tmd(titleId: u64, version: u16, iosId: u64, region: Region, contents: seq<Content>)

  /** UpdateResult. */
  datatype UpdateResult =
    | Succeeded | AlreadyUpToDate | ServerFailed | DownloadFailed
    | ImportFailed | Cancelled

  /** What the engine did, in order: store calls with their return codes,
      transport requests, dialogs, progress reports and cache flushes. */
  datatype Event =
    | TicketImport(ticket: bytes, checks: bool, rc: int)
    | TitleInit(titleId: u64, checks: bool, rc: int)
    | ContentBegin(titleId: u64, contentId: u32, rc: int)
    | ContentData(data: bytes, rc: int)
    | ContentEnd(rc: int)
    | TitleDone(rc: int)
    | TitleCancel(rc: int)
    | Get(url: string)
    | Post(deviceId: string, region: string)
    | Prompt(answer: bool)
    | Progress(processed: nat, total: nat, titleId: u64)
    | CacheCleared
  {
    /** Finalisation of an import context. */
    predicate IsFinalize() { TitleDone? || TitleCancel? }
  }
}
