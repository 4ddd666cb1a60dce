TestResult.DisplayName,TestResult.Outcome,TestResult.Duration,TestResult.ResourceCount,RandomSeed
LinAlg.SolveSystemQR (correctness),Failed,00:00:02.4492481,5071710,6
LinAlg.SolveSystemQR (well-formedness),Passed,00:00:00.1842573,101421,6
