/** The messages the iced application routes to its pages (src/ui/app.rs, and the page
    message enums of src/ui/install_page.rs and src/ui/download_page.rs). */
module AppMessages {

  /** An IEEE 754 binary64 value (`f64`), kept as its bit pattern: the pages only store it. */
  type F64 = bv64

  /** `InstallPageMessage`. */
  datatype InstallPageMessage =
    | StartInstallation
    | StartedIsoDownload
    | StartedIsoFlash
    | StartedMacosResize
    | Finished
    | Failed(message: string)

  /** `DownloadPageMessage`. */
  datatype DownloadPageMessage =
    | StartedIsoDownload
    | DownloadProgress(progress: F64)
    | Finished
    | Failed(message: string)
    | Cancel

  /** `AppMessage`: the main page's messages (whose content is not part of this model) and
      the two pages' messages wrapped in their variants. */
  datatype AppMessage =
    | MainPage
    | InstallPage(install: InstallPageMessage)
    | Download(download: DownloadPageMessage)

  /** The page an `update` may hand back to switch to; only the finish page occurs. */
  datatype NextPage = FinishPage
}
