/** The exceptions the benchmark driver can raise, one constructor per cause. */
module Errors {

  datatype Error =
      /** `assert family == 'ice40'` in `run` */
    | UnsupportedFamily(family: string)
      /** `assert device == 'hx8k'` in `run` */
    | UnsupportedDevice(device: string)
      /** `KeyError` from the toolchain table in `run` */
    | UnknownToolchain(toolchain: string)
      /** `KeyError` from the project registry */
    | UnknownProject(project: string)
      /** `CalledProcessError` from `subprocess.check_call` / `check_output` */
    | CommandFailed(cmd: string, argstr: string)
      /** `re.match` returned `None` for a resource-report line (`AttributeError`) */
    | StatLineUnmatched(line: string)
      /** the resource count group was empty, so `int('')` raised `ValueError` */
    | StatCountMissing(line: string)
      /** `assert 'LUT' in ret` */
    | LutMissing
      /** `assert m.group(2) == 'MHz'` */
    | FrequencyUnitNotMHz(unit: string)
      /** `KeyError` for `'max_freq'` when no timing line matched */
    | MaxFreqMissing
      /** `open(...)` of a report file that no command has written */
    | LogMissing(path: string)
      /** `assert version is not None` */
    | VersionLineMissing
      /** `assert revision is not None` */
    | RevisionLineMissing
}
